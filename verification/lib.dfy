/**
 * The plugin's library entry points: looking up a user's cached extension
 * requests by course or by course module, and the guard and argument
 * splitting that precede serving an attachment file.
 */
module Lib {
  import opened Php

  /** One course module of a request, as the request cache holds it. */
  datatype CourseModule = CourseModule(request: nat, course: int, cmid: int)

  /** A cached request with its course modules, in the cache's order. */
  datatype Request = Request(requestid: nat, cms: seq<CourseModule>)

  /** Position of the first course module of the given course, or |cms| when there is none. */
  function FirstInCourse(cms: seq<CourseModule>, courseid: int): (j: nat)
    ensures j <= |cms|
    ensures forall k :: 0 <= k < j ==> cms[k].course != courseid
    ensures j < |cms| ==> cms[j].course == courseid
  {
    if cms == [] then 0
    else if cms[0].course == courseid then 0
    else 1 + FirstInCourse(cms[1..], courseid)
  }

  predicate HasCourse(r: Request, courseid: int) {
    FirstInCourse(r.cms, courseid) < |r.cms|
  }

  /** The key a matching request is stored under: the request field of its first course module in the course. */
  function CourseKey(r: Request, courseid: int): nat
    requires HasCourse(r, courseid)
  {
    r.cms[FirstInCourse(r.cms, courseid)].request
  }

  /** Request r is stored under key k in a course lookup. */
  predicate KeyedBy(r: Request, courseid: int, k: nat) {
    HasCourse(r, courseid) && CourseKey(r, courseid) == k
  }

  /** The map a course lookup returns for the requests taken in order; a later request overwrites an earlier one under the same key. */
  function CourseIndex(requests: seq<Request>, courseid: int): map<nat, Request> {
    if requests == [] then map[]
    else
      var prefix := CourseIndex(requests[..|requests| - 1], courseid);
      var last := requests[|requests| - 1];
      if HasCourse(last, courseid) then prefix[CourseKey(last, courseid) := last] else prefix
  }

  /**
   * A key is in the course lookup exactly when some request is stored
   * under it, and its value is the last request stored under it.
   */
  lemma {:induction false} CourseIndexContents(requests: seq<Request>, courseid: int, k: nat)
    ensures k in CourseIndex(requests, courseid) <==>
              exists i :: 0 <= i < |requests| && KeyedBy(requests[i], courseid, k)
    ensures k in CourseIndex(requests, courseid) ==>
              exists i :: 0 <= i < |requests| && KeyedBy(requests[i], courseid, k)
                       && CourseIndex(requests, courseid)[k] == requests[i]
                       && forall i' :: i < i' < |requests| ==> !KeyedBy(requests[i'], courseid, k)
  {
    if requests != [] {
      var n := |requests| - 1;
      var front := requests[..n];
      CourseIndexContents(front, courseid, k);
      if KeyedBy(requests[n], courseid, k) {
        assert CourseIndex(requests, courseid)[k] == requests[n];
      } else {
        assert k in CourseIndex(requests, courseid) <==> k in CourseIndex(front, courseid);
        if k in CourseIndex(front, courseid) {
          var i :| 0 <= i < |front| && KeyedBy(front[i], courseid, k)
                   && CourseIndex(front, courseid)[k] == front[i]
                   && forall i' :: i < i' < |front| ==> !KeyedBy(front[i'], courseid, k);
          assert requests[i] == front[i];
          assert forall i' :: i < i' < |requests| ==> !KeyedBy(requests[i'], courseid, k) by {
            forall i' | i < i' < |requests| ensures !KeyedBy(requests[i'], courseid, k) {
              if i' < n {
                assert requests[i'] == front[i'];
              }
            }
          }
        } else {
          forall i | 0 <= i < |requests| ensures !KeyedBy(requests[i], courseid, k) {
            if i < n {
              assert requests[i] == front[i];
            }
          }
        }
      }
    }
  }

  /** Each request contributes at most one entry to a course lookup. */
  lemma {:induction false} CourseIndexSize(requests: seq<Request>, courseid: int)
    ensures |CourseIndex(requests, courseid)| <= |requests|
  {
    if requests != [] {
      var n := |requests| - 1;
      var prefix := CourseIndex(requests[..n], courseid);
      CourseIndexSize(requests[..n], courseid);
      if HasCourse(requests[n], courseid) {
        var k := CourseKey(requests[n], courseid);
        assert prefix[k := requests[n]].Keys == prefix.Keys + {k};
        assert |prefix.Keys + {k}| <= |prefix.Keys| + |{k}|;
      }
    }
  }

  /** Requests whose course modules all point back at them, with distinct ids. */
  predicate WellFormed(requests: seq<Request>) {
    && (forall i, j :: 0 <= i < |requests| && 0 <= j < |requests[i].cms| ==>
          requests[i].cms[j].request == requests[i].requestid)
    && (forall i, i' :: 0 <= i < i' < |requests| ==> requests[i].requestid != requests[i'].requestid)
  }

  /**
   * For well-formed requests a course lookup maps each request id to its
   * request exactly when that request has a course module in the course.
   */
  lemma CourseIndexOfWellFormed(requests: seq<Request>, courseid: int, i: nat)
    requires WellFormed(requests)
    requires i < |requests|
    ensures requests[i].requestid in CourseIndex(requests, courseid) <==>
              exists j :: 0 <= j < |requests[i].cms| && requests[i].cms[j].course == courseid
    ensures requests[i].requestid in CourseIndex(requests, courseid) ==>
              CourseIndex(requests, courseid)[requests[i].requestid] == requests[i]
  {
    var k := requests[i].requestid;
    var r := requests[i];
    CourseIndexContents(requests, courseid, k);
    if exists j :: 0 <= j < |r.cms| && r.cms[j].course == courseid {
      var j :| 0 <= j < |r.cms| && r.cms[j].course == courseid;
      assert FirstInCourse(r.cms, courseid) <= j;
      assert KeyedBy(r, courseid, k);
    }
    if k in CourseIndex(requests, courseid) {
      var i0 :| 0 <= i0 < |requests| && KeyedBy(requests[i0], courseid, k)
                && CourseIndex(requests, courseid)[k] == requests[i0]
                && forall i' :: i0 < i' < |requests| ==> !KeyedBy(requests[i'], courseid, k);
      var r0 := requests[i0];
      assert r0.cms[FirstInCourse(r0.cms, courseid)].request == r0.requestid;
      assert i0 == i;
    }
  }

  /** local_extension_find_request with no module id: the matching requests, keyed by request. */
  method FindRequestsInCourse(requests: seq<Request>, courseid: int) returns (matched: map<nat, Request>)
    ensures matched == CourseIndex(requests, courseid)
  {
    matched := map[];
    var i := 0;
    while i < |requests|
      invariant 0 <= i <= |requests|
      invariant matched == CourseIndex(requests[..i], courseid)
    {
      var request := requests[i];
      assert requests[..i + 1][..i] == requests[..i];
      var j := 0;
      while j < |request.cms|
        invariant 0 <= j <= |request.cms|
        invariant forall k :: 0 <= k < j ==> request.cms[k].course != courseid
        invariant matched == CourseIndex(requests[..i], courseid)
      {
        var cm := request.cms[j];
        if courseid == cm.course {
          assert FirstInCourse(request.cms, courseid) == j;
          matched := matched[cm.request := request];
          break;
        }
        j := j + 1;
      }
      assert matched == CourseIndex(requests[..i + 1], courseid);
      i := i + 1;
    }
    assert requests[..i] == requests;
  }

  /** The course module cm is the one asked for. */
  predicate MatchesModule(cm: CourseModule, courseid: int, moduleid: int) {
    courseid == cm.course && moduleid == cm.cmid
  }

  /** local_extension_find_request with a module id: the first matching (request, course module) pair, or null. */
  method FindRequestInModule(requests: seq<Request>, courseid: int, moduleid: int)
    returns (found: Option<(Request, CourseModule)>)
    ensures found.None? <==>
              forall i, j :: 0 <= i < |requests| && 0 <= j < |requests[i].cms| ==>
                !MatchesModule(requests[i].cms[j], courseid, moduleid)
    ensures found.Some? ==>
              exists i, j :: 0 <= i < |requests| && 0 <= j < |requests[i].cms|
                && found.value == (requests[i], requests[i].cms[j])
                && MatchesModule(requests[i].cms[j], courseid, moduleid)
                && (forall j' :: 0 <= j' < j ==> !MatchesModule(requests[i].cms[j'], courseid, moduleid))
                && (forall i', j' :: 0 <= i' < i && 0 <= j' < |requests[i'].cms| ==>
                      !MatchesModule(requests[i'].cms[j'], courseid, moduleid))
  {
    var i := 0;
    while i < |requests|
      invariant 0 <= i <= |requests|
      invariant forall i', j' :: 0 <= i' < i && 0 <= j' < |requests[i'].cms| ==>
                  !MatchesModule(requests[i'].cms[j'], courseid, moduleid)
    {
      var request := requests[i];
      var j := 0;
      while j < |request.cms|
        invariant 0 <= j <= |request.cms|
        invariant forall j' :: 0 <= j' < j ==> !MatchesModule(request.cms[j'], courseid, moduleid)
      {
        var cm := request.cms[j];
        if courseid == cm.course && moduleid == cm.cmid {
          return Some((request, cm));
        }
        j := j + 1;
      }
      i := i + 1;
    }
    return None;
  }

  /** What local_extension_find_request returns. */
  datatype Lookup =
    | CourseMatches(matched: map<nat, Request>)
    | ModuleMatch(request: Request, cm: CourseModule)
    | NoMatch

  /** local_extension_find_request: the course lookup when the module id is empty (0), the module lookup otherwise. */
  method FindRequest(requests: seq<Request>, courseid: int, moduleid: int) returns (r: Lookup)
    ensures r.CourseMatches? <==> moduleid == 0
    ensures r.CourseMatches? ==> r.matched == CourseIndex(requests, courseid)
    ensures r.NoMatch? <==>
              moduleid != 0 &&
              forall i, j :: 0 <= i < |requests| && 0 <= j < |requests[i].cms| ==>
                !MatchesModule(requests[i].cms[j], courseid, moduleid)
    ensures r.ModuleMatch? ==>
              exists i, j :: 0 <= i < |requests| && 0 <= j < |requests[i].cms|
                && (r.request, r.cm) == (requests[i], requests[i].cms[j])
                && MatchesModule(requests[i].cms[j], courseid, moduleid)
                && (forall j' :: 0 <= j' < j ==> !MatchesModule(requests[i].cms[j'], courseid, moduleid))
                && (forall i', j' :: 0 <= i' < i && 0 <= j' < |requests[i'].cms| ==>
                      !MatchesModule(requests[i'].cms[j'], courseid, moduleid))
  {
    if moduleid == 0 {
      var matched := FindRequestsInCourse(requests, courseid);
      r := CourseMatches(matched);
    } else {
      var found := FindRequestInModule(requests, courseid, moduleid);
      match found
      case Some(pair) => r := ModuleMatch(pair.0, pair.1);
      case None => r := NoMatch;
    }
  }

  // ---------------------------------------------------------------------
  // Serving attachment files

  /** Moodle's CONTEXT_USER context level. */
  const ContextUser: int := 30

  datatype Context = Context(id: nat, contextlevel: int)

  /** A stored file, as far as serving it is concerned. */
  datatype StoredFile = StoredFile(isDirectory: bool, contenthash: string)

  /** The coordinates the file storage looks a file up by; a null item id or file name stays null. */
  datatype FileKey = FileKey(
    contextid: nat,
    component: string,
    filearea: string,
    itemid: Option<string>,
    filepath: string,
    filename: Option<string>)

  /** The file path made of the given directories: "/" alone, or every directory followed by "/". */
  function PathOf(dirs: seq<string>): (path: string)
    ensures |path| > 0 && path[0] == '/' && path[|path| - 1] == '/'
  {
    if dirs == [] then "/" else "/" + dirs[0] + PathOf(dirs[1..])
  }

  /** Splits a file path back into its directories. */
  function Directories(path: string): seq<string>
    decreases |path|
  {
    if |path| <= 1 then []
    else
      var rest := path[1..];
      var n := RunLength(rest, '/');
      [rest[..n]] + Directories(rest[n..])
  }

  predicate NoSlash(d: string) {
    forall i :: 0 <= i < |d| ==> d[i] != '/'
  }

  /** A file path built from directory names without '/' gives those names back. */
  lemma {:induction false} DirectoriesOfPath(dirs: seq<string>)
    requires forall i :: 0 <= i < |dirs| ==> NoSlash(dirs[i])
    ensures Directories(PathOf(dirs)) == dirs
  {
    if dirs != [] {
      var tail := PathOf(dirs[1..]);
      var path := PathOf(dirs);
      var rest := path[1..];
      assert rest == dirs[0] + tail;
      var n := RunLength(rest, '/');
      assert forall i :: 0 <= i < |dirs[0]| ==> rest[i] == dirs[0][i];
      assert rest[|dirs[0]|] == tail[0] == '/';
      assert n == |dirs[0]|;
      assert rest[..n] == dirs[0];
      assert rest[n..] == tail;
      DirectoriesOfPath(dirs[1..]);
    }
  }

  /** The PHP expression '/' . implode('/', dirs) . '/' builds the same path, for at least one directory. */
  lemma {:induction false} ImplodedPath(dirs: seq<string>)
    requires dirs != []
    ensures "/" + Implode("/", dirs) + "/" == PathOf(dirs)
  {
    if |dirs| > 1 {
      ImplodedPath(dirs[1..]);
      assert "/" + Implode("/", dirs) + "/" == "/" + dirs[0] + ("/" + Implode("/", dirs[1..]) + "/");
    }
  }

  /**
   * The argument split of local_extension_pluginfile: the item id is
   * shifted off the front, the file name popped off the back, and the
   * directories left in between make the file path.
   */
  method SplitFileArgs(args: seq<string>) returns (itemid: Option<string>, filepath: string, filename: Option<string>)
    ensures itemid == if |args| > 0 then Some(args[0]) else None
    ensures filename == if |args| > 1 then Some(args[|args| - 1]) else None
    ensures filepath == PathOf(if |args| > 2 then args[1..|args| - 1] else [])
    ensures |filepath| > 0 && filepath[0] == '/' && filepath[|filepath| - 1] == '/'
  {
    var rest := args;
    // array_shift
    if rest == [] {
      itemid := None;
    } else {
      itemid := Some(rest[0]);
      rest := rest[1..];
    }
    // array_pop
    if rest == [] {
      filename := None;
    } else {
      filename := Some(rest[|rest| - 1]);
      rest := rest[..|rest| - 1];
    }
    assert rest == if |args| > 2 then args[1..|args| - 1] else [];
    if rest == [] {
      filepath := "/";
    } else {
      filepath := "/" + Implode("/", rest) + "/";
      ImplodedPath(rest);
    }
  }

  datatype ServeResult = Refused | Served(file: StoredFile)

  /** Where the file named by a URL argument list is looked up: item id first, file name last, directories between. */
  function ArgsKey(context: Context, filearea: string, args: seq<string>): FileKey {
    FileKey(context.id, "local_extension", filearea,
            if |args| > 0 then Some(args[0]) else None,
            PathOf(if |args| > 2 then args[1..|args| - 1] else []),
            if |args| > 1 then Some(args[|args| - 1]) else None)
  }

  /**
   * local_extension_pluginfile: only user-context attachments are served,
   * and only a stored file that is not a directory.
   */
  method PluginFile(context: Context, filearea: string, args: seq<string>, storage: map<FileKey, StoredFile>)
    returns (r: ServeResult)
    ensures context.contextlevel != ContextUser ==> r == Refused
    ensures filearea != "attachments" ==> r == Refused
    ensures context.contextlevel == ContextUser && filearea == "attachments" ==>
              var key := ArgsKey(context, filearea, args);
              r == if key in storage && !storage[key].isDirectory then Served(storage[key]) else Refused
  {
    if context.contextlevel != ContextUser {
      return Refused;
    }
    if filearea != "attachments" {
      return Refused;
    }
    var itemid, filepath, filename := SplitFileArgs(args);
    var key := FileKey(context.id, "local_extension", filearea, itemid, filepath, filename);
    if key !in storage || storage[key].isDirectory {
      return Refused;
    }
    r := Served(storage[key]);
  }
}
