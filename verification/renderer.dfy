/**
 * The decisions the plugin's renderer takes before it writes any HTML:
 * which look-ahead weeks are offered, the order in which trigger rules are
 * listed, the CSS class of a comment, the short form of a time, and when
 * the attachment list is shown. The HTML itself is not modelled.
 */
module Renderer {
  import opened Php

  // ---------------------------------------------------------------------
  // Search forward controls

  /** The label of a look-ahead option: the "week" string for one week, "week_plural" otherwise. */
  datatype WeekLabel = Week(n: int) | Weeks(n: int)

  /** The option for looking i weeks ahead: its value in days and its label. */
  function WeekOption(i: int): (int, WeekLabel) {
    (7 * i, if i == 1 then Week(i) else Weeks(i))
  }

  /** The options offered for weeks 1 to k, leaving out weeks shorter than the default look-ahead. */
  function ForwardOptions(k: int, searchforwarddefault: int): seq<(int, WeekLabel)>
    decreases k
  {
    if k < 1 then []
    else
      ForwardOptions(k - 1, searchforwarddefault)
      + (if 7 * k < searchforwarddefault then [] else [WeekOption(k)])
  }

  /** The options for weeks 1 to k are those for weeks 1 to k - 1, then possibly week k. */
  lemma ForwardOptionsStep(k: int, searchforwarddefault: int, j: int)
    requires k >= 1
    requires 0 <= j < |ForwardOptions(k, searchforwarddefault)|
    ensures var pre := ForwardOptions(k - 1, searchforwarddefault);
            var opts := ForwardOptions(k, searchforwarddefault);
            && |pre| <= |opts| <= |pre| + 1
            && (j < |pre| ==> opts[j] == pre[j])
            && (j == |pre| ==> opts[j] == WeekOption(k) && 7 * k >= searchforwarddefault)
  {
  }

  /** The offered options are in strictly increasing order of days, none beyond k weeks. */
  lemma {:induction false} ForwardOptionsIncreasing(k: int, searchforwarddefault: int)
    ensures var opts := ForwardOptions(k, searchforwarddefault);
            forall a, b :: 0 <= a < b < |opts| ==> opts[a].0 < opts[b].0
    ensures var opts := ForwardOptions(k, searchforwarddefault);
            forall j :: 0 <= j < |opts| ==> opts[j].0 <= 7 * k
    decreases k
  {
    if k >= 1 {
      ForwardOptionsIncreasing(k - 1, searchforwarddefault);
      var pre := ForwardOptions(k - 1, searchforwarddefault);
      var opts := ForwardOptions(k, searchforwarddefault);
      forall j | 0 <= j < |opts|
        ensures opts[j].0 <= 7 * k
        ensures j < |pre| ==> opts[j].0 <= 7 * (k - 1)
      {
        ForwardOptionsStep(k, searchforwarddefault, j);
      }
      forall a, b | 0 <= a < b < |opts|
        ensures opts[a].0 < opts[b].0
      {
        ForwardOptionsStep(k, searchforwarddefault, a);
        ForwardOptionsStep(k, searchforwarddefault, b);
      }
    }
  }

  /**
   * Each offered option is a whole number of weeks between one week and
   * k weeks, not shorter than the default look-ahead, and labelled "week"
   * only for a single week.
   */
  lemma {:induction false} ForwardOptionsWellLabelled(k: int, searchforwarddefault: int)
    ensures var opts := ForwardOptions(k, searchforwarddefault);
            forall j :: 0 <= j < |opts| ==>
              && opts[j] == WeekOption(opts[j].0 / 7)
              && opts[j].0 % 7 == 0
              && 7 <= opts[j].0 <= 7 * k
              && opts[j].0 >= searchforwarddefault
              && (opts[j].1.Week? <==> opts[j].0 == 7)
    decreases k
  {
    if k >= 1 {
      ForwardOptionsWellLabelled(k - 1, searchforwarddefault);
      var pre := ForwardOptions(k - 1, searchforwarddefault);
      var opts := ForwardOptions(k, searchforwarddefault);
      forall j | 0 <= j < |opts|
        ensures && opts[j] == WeekOption(opts[j].0 / 7)
                && opts[j].0 % 7 == 0
                && 7 <= opts[j].0 <= 7 * k
                && opts[j].0 >= searchforwarddefault
                && (opts[j].1.Week? <==> opts[j].0 == 7)
      {
        ForwardOptionsStep(k, searchforwarddefault, j);
        if j < |pre| {
          assert opts[j] == pre[j];
        } else {
          assert opts[j] == WeekOption(k);
          assert (7 * k) / 7 == k;
        }
      }
    }
  }

  /** Every week from one to k that is not shorter than the default look-ahead is offered. */
  lemma {:induction false} ForwardOptionsComplete(k: int, searchforwarddefault: int, i: int)
    requires 1 <= i <= k && 7 * i >= searchforwarddefault
    ensures WeekOption(i) in ForwardOptions(k, searchforwarddefault)
    decreases k
  {
    if i < k {
      ForwardOptionsComplete(k - 1, searchforwarddefault, i);
    }
  }

  /** What the search controls show: the out-of-range message, or the look-ahead options. */
  datatype SearchControls = OutOfRange | Forward(options: seq<(int, WeekLabel)>)

  /**
   * render_request_search_controls: a look-ahead longer than the
   * configured maximum gets only the out-of-range message; otherwise the
   * options are built week by week.
   */
  method RenderRequestSearchControls(maxweeks: int, searchforwarddefault: int, searchforward: int)
    returns (r: SearchControls)
    ensures r.OutOfRange? <==> searchforward > maxweeks * 7
    ensures r.Forward? ==> r.options == ForwardOptions(maxweeks, searchforwarddefault)
  {
    if searchforward > maxweeks * 7 {
      return OutOfRange;
    }
    var forwardlist := [];
    var i := 1;
    while i <= maxweeks
      invariant 1 <= i <= if maxweeks >= 1 then maxweeks + 1 else 1
      invariant forwardlist == ForwardOptions(i - 1, searchforwarddefault)
    {
      // Weeks shorter than the default look-ahead are skipped.
      if 7 * i < searchforwarddefault {
        i := i + 1;
        continue;
      }
      var value := 7 * i;
      if i == 1 {
        forwardlist := forwardlist + [(value, Week(i))];
      } else {
        forwardlist := forwardlist + [(value, Weeks(i))];
      }
      i := i + 1;
    }
    if maxweeks < 1 {
      assert ForwardOptions(0, searchforwarddefault) == [];
      assert ForwardOptions(maxweeks, searchforwarddefault) == [];
    }
    return Forward(forwardlist);
  }

  // ---------------------------------------------------------------------
  // Trigger rules on the manage page

  /** A trigger rule with the name of its parent rule (if loaded) and its child rules in order. */
  datatype TriggerRule = TriggerRule(id: nat, name: string, parentName: Option<string>, children: seq<TriggerRule>)

  /** One listed rule: the rule and the parent string it is shown with. */
  datatype RuleLine = RuleLine(id: nat, name: string, parentstr: string)

  /** The parent's name when it is not empty, the empty string otherwise. */
  function ParentStr(rule: TriggerRule): string {
    if rule.parentName.Some? && !EmptyString(rule.parentName.value) then rule.parentName.value else ""
  }

  function LineOf(rule: TriggerRule): RuleLine {
    RuleLine(rule.id, rule.name, ParentStr(rule))
  }

  /** Pre-order listing of a forest: each rule, then its subtree, then its next sibling. */
  function PreOrder(branch: seq<TriggerRule>): seq<RuleLine>
    decreases branch
  {
    if branch == [] then []
    else [LineOf(branch[0])] + PreOrder(branch[0].children) + PreOrder(branch[1..])
  }

  /** Number of rules in a forest. */
  function RuleCount(branch: seq<TriggerRule>): nat
    decreases branch
  {
    if branch == [] then 0
    else 1 + RuleCount(branch[0].children) + RuleCount(branch[1..])
  }

  /** Rule r occurs somewhere in the forest. */
  predicate InForest(r: TriggerRule, branch: seq<TriggerRule>)
    decreases branch
  {
    branch != [] && (branch[0] == r || InForest(r, branch[0].children) || InForest(r, branch[1..]))
  }

  /** Siblings are listed in their given order: listing two runs of siblings lists one after the other. */
  lemma {:induction false} PreOrderConcat(a: seq<TriggerRule>, b: seq<TriggerRule>)
    ensures PreOrder(a + b) == PreOrder(a) + PreOrder(b)
    decreases a
  {
    if a == [] {
      assert a + b == b;
    } else {
      assert (a + b)[0] == a[0];
      assert (a + b)[1..] == a[1..] + b;
      PreOrderConcat(a[1..], b);
    }
  }

  /** The listing has one line per rule of the forest. */
  lemma {:induction false} PreOrderLength(branch: seq<TriggerRule>)
    ensures |PreOrder(branch)| == RuleCount(branch)
    decreases branch
  {
    if branch != [] {
      PreOrderLength(branch[0].children);
      PreOrderLength(branch[1..]);
    }
  }

  /** Starting at position k, lines hold rule r's line followed by the listing of r's subtree. */
  predicate SubtreeAt(lines: seq<RuleLine>, k: int, r: TriggerRule) {
    var m := 1 + |PreOrder(r.children)|;
    0 <= k && k + m <= |lines| && lines[k..k + m] == [LineOf(r)] + PreOrder(r.children)
  }

  /** A subtree listed inside the second part of a concatenation is listed, shifted, in the whole. */
  lemma SubtreeAfter(x: seq<RuleLine>, y: seq<RuleLine>, k: int, r: TriggerRule)
    requires SubtreeAt(y, k, r)
    ensures SubtreeAt(x + y, |x| + k, r)
  {
    var m := 1 + |PreOrder(r.children)|;
    assert (x + y)[|x| + k..|x| + k + m] == y[k..k + m];
  }

  /** A subtree listed inside the first part of a concatenation is listed, in place, in the whole. */
  lemma SubtreeBefore(x: seq<RuleLine>, y: seq<RuleLine>, k: int, r: TriggerRule)
    requires SubtreeAt(x, k, r)
    ensures SubtreeAt(x + y, k, r)
  {
    var m := 1 + |PreOrder(r.children)|;
    assert (x + y)[k..k + m] == x[k..k + m];
  }

  /**
   * Every rule of the forest is listed, and its line is immediately
   * followed by the listing of its own subtree: a rule comes before its
   * children.
   */
  lemma {:induction false} PreOrderListsSubtree(r: TriggerRule, branch: seq<TriggerRule>)
    requires InForest(r, branch)
    ensures exists k :: SubtreeAt(PreOrder(branch), k, r)
    decreases branch
  {
    var line := [LineOf(branch[0])];
    var sub := PreOrder(branch[0].children);
    var rest := PreOrder(branch[1..]);
    assert PreOrder(branch) == (line + sub) + rest;
    if branch[0] == r {
      assert (line + sub)[0..|line + sub|] == line + sub;
      assert SubtreeAt(line + sub, 0, r);
      SubtreeBefore(line + sub, rest, 0, r);
    } else if InForest(r, branch[0].children) {
      PreOrderListsSubtree(r, branch[0].children);
      var k :| SubtreeAt(sub, k, r);
      SubtreeAfter(line, sub, k, r);
      SubtreeBefore(line + sub, rest, 1 + k, r);
    } else {
      PreOrderListsSubtree(r, branch[1..]);
      var k :| SubtreeAt(rest, k, r);
      SubtreeAfter(line + sub, rest, k, r);
    }
  }

  /** Listing one more sibling after some earlier lines adds its line and then its subtree. */
  lemma PreOrderSnoc(branch: seq<TriggerRule>, i: nat, html: seq<RuleLine>)
    requires i < |branch|
    ensures html + PreOrder(branch[..i + 1])
            == html + PreOrder(branch[..i]) + [LineOf(branch[i])] + PreOrder(branch[i].children)
  {
    var rule := branch[i];
    assert branch[..i + 1] == branch[..i] + [rule];
    PreOrderConcat(branch[..i], [rule]);
    assert [rule][1..] == [];
    assert PreOrder([rule]) == [LineOf(rule)] + PreOrder(rule.children) + PreOrder([]);
  }

  /**
   * render_delete_rules: appends to html the lines of every rule of the
   * branch, each followed by its children's lines, recursively.
   */
  method RenderDeleteRules(branch: seq<TriggerRule>, html: seq<RuleLine>) returns (out: seq<RuleLine>)
    ensures out == html + PreOrder(branch)
    decreases branch
  {
    out := html;
    var i := 0;
    while i < |branch|
      invariant 0 <= i <= |branch|
      invariant out == html + PreOrder(branch[..i])
    {
      var rule := branch[i];
      PreOrderSnoc(branch, i, html);
      out := out + [LineOf(rule)];
      if rule.children != [] {
        out := RenderDeleteRules(rule.children, out);
      } else {
        assert out == out + PreOrder(rule.children);
      }
      i := i + 1;
    }
    assert branch[..i] == branch;
  }

  // ---------------------------------------------------------------------
  // Comments and times

  /** The CSS class of a comment: "content", marked for a file attachment and for a state change. */
  function CommentClass(filehash: string, state: int): string {
    var cls := "content";
    var cls := if !EmptyString(filehash) then cls + " fileattachment" else cls;
    if state != 0 then cls + " statechange" else cls
  }

  /**
   * Read as a class list, a comment's class is "content", then
   * "fileattachment" exactly when it carries a file, then "statechange"
   * exactly when it records a state change.
   */
  lemma CommentClassList(filehash: string, state: int)
    ensures Tokens(CommentClass(filehash, state)) ==
              ["content"]
              + ((if !EmptyString(filehash) then ["fileattachment"] else [])
                 + (if state != 0 then ["statechange"] else []))
  {
    CommentClassMarkers(filehash, state);
    ClassNamesAreTokens();
    ClassListRead("content", "fileattachment", "statechange", !EmptyString(filehash), state != 0);
  }

  lemma ClassNamesAreTokens()
    ensures IsToken("content") && IsToken("fileattachment") && IsToken("statechange")
  {
  }

  /** An optional class appended to a class list: a space and the class name, or nothing. */
  function Marker(use: bool, w: string): string {
    if use then " " + w else ""
  }

  /** A comment's class is "content" followed by its two optional markers. */
  lemma CommentClassMarkers(filehash: string, state: int)
    ensures CommentClass(filehash, state)
            == "content" + (Marker(!EmptyString(filehash), "fileattachment") + Marker(state != 0, "statechange"))
  {
    assert " fileattachment" == " " + "fileattachment";
    assert " statechange" == " " + "statechange";
    ClassesAppended("content", " fileattachment", " statechange", !EmptyString(filehash), state != 0);
  }

  /** Appending two optional suffixes one after the other appends their concatenation. */
  lemma ClassesAppended(base: string, b: string, c: string, useB: bool, useC: bool)
    ensures var cls := if useB then base + b else base;
            (if useC then cls + c else cls) == base + ((if useB then b else "") + (if useC then c else ""))
  {
  }

  /** A class list made of a first class and two optional ones reads as those classes. */
  lemma ClassListRead(a: string, b: string, c: string, useB: bool, useC: bool)
    requires IsToken(a) && IsToken(b) && IsToken(c)
    ensures Tokens(a + (Marker(useB, b) + Marker(useC, c))) == [a] + ((if useB then [b] else []) + (if useC then [c] else []))
  {
    MarkersRead(b, c, useB, useC);
    TokensAfterWord(a, Marker(useB, b) + Marker(useC, c));
  }

  /** The two optional classes read as their names. */
  lemma MarkersRead(b: string, c: string, useB: bool, useC: bool)
    requires IsToken(b) && IsToken(c)
    ensures var s := Marker(useB, b) + Marker(useC, c); s == [] || s[0] == ' '
    ensures Tokens(Marker(useB, b) + Marker(useC, c)) == (if useB then [b] else []) + (if useC then [c] else [])
  {
    var tail := Marker(useC, c);
    if useC {
      SpaceThenToken(c, "");
      assert " " + c + "" == tail;
    }
    if useB {
      SpaceThenToken(b, tail);
      assert Marker(useB, b) + tail == " " + b + tail;
    } else {
      assert Marker(useB, b) + tail == tail;
    }
  }

  /** A space and a token, followed by nothing or a delimiter, read as that token first. */
  lemma SpaceThenToken(w: string, rest: string)
    requires IsToken(w)
    requires rest == [] || rest[0] == ' '
    ensures Tokens(" " + w + rest) == [w] + Tokens(rest)
  {
    assert " " + w + rest == " " + (w + rest);
    TokensAfterSpace(w + rest);
    TokensAfterWord(w, rest);
  }

  /** The first two tokens of a formatted duration, joined by one space; a missing token reads as "". */
  function FirstTwoTokens(show: string): string {
    var ts := Tokens(show);
    var num := if |ts| > 0 then ts[0] else "";
    var unit := if |ts| > 1 then ts[1] else "";
    num + " " + unit
  }

  lemma FirstTwoOfNoToken(show: string)
    requires |Tokens(show)| == 0
    ensures Tokens(FirstTwoTokens(show)) == []
  {
    TokensAfterSpace("");
    assert " " + "" == " ";
    assert FirstTwoTokens(show) == " ";
  }

  lemma FirstTwoOfOneToken(show: string)
    requires |Tokens(show)| == 1
    ensures Tokens(FirstTwoTokens(show)) == Tokens(show)
  {
    var ts := Tokens(show);
    TokensAfterSpace("");
    assert FirstTwoTokens(show) == ts[0] + " ";
    TokensAfterWord(ts[0], " ");
  }

  lemma FirstTwoOfMoreTokens(show: string)
    requires |Tokens(show)| >= 2
    ensures Tokens(FirstTwoTokens(show)) == Tokens(show)[..2]
  {
    var ts := Tokens(show);
    var w0, w1 := ts[0], ts[1];
    assert FirstTwoTokens(show) == w0 + (" " + w1);
    TwoWordsRead(w0, w1);
    assert ts[..2] == [w0, w1];
  }

  /** Two tokens joined by one space read as those two tokens. */
  lemma TwoWordsRead(w0: string, w1: string)
    requires IsToken(w0) && IsToken(w1)
    ensures Tokens(w0 + (" " + w1)) == [w0, w1]
  {
    TokensAfterSpace(w1);
    TokensAfterWord(w1, "");
    assert w1 + "" == w1;
    TokensAfterWord(w0, " " + w1);
  }

  /** Only the biggest unit is kept: the short form holds the first two tokens of the full one and nothing else. */
  lemma FirstTwoTokensKept(show: string)
    ensures var ts := Tokens(show);
            Tokens(FirstTwoTokens(show)) == ts[..if |ts| < 2 then |ts| else 2]
  {
    var n := |Tokens(show)|;
    if n == 0 {
      FirstTwoOfNoToken(show);
    } else if n == 1 {
      FirstTwoOfOneToken(show);
    } else {
      FirstTwoOfMoreTokens(show);
    }
  }

  /** An abbr element: its text and its title, if any. */
  datatype Abbr = Abbr(text: string, title: Option<string>)

  /**
   * render_time: the full date when showdate is set; otherwise the age of
   * time at now, cut to its biggest unit, with the full date as title.
   * formatTime and userdate are Moodle's formatting functions.
   */
  function RenderTime(time: int, now: int, showdate: bool, formatTime: int -> string, userdate: int -> string): (r: Abbr)
    ensures showdate ==> r == Abbr(userdate(time), None)
    ensures !showdate ==> r.title == Some(userdate(time))
    ensures !showdate ==>
              var ts := Tokens(formatTime(now - time));
              Tokens(r.text) == ts[..if |ts| < 2 then |ts| else 2]
  {
    var show := FirstTwoTokens(formatTime(now - time));
    FirstTwoTokensKept(formatTime(now - time));
    var fulldate := userdate(time);
    if showdate then Abbr(fulldate, None) else Abbr(show, Some(fulldate))
  }

  // ---------------------------------------------------------------------
  // Attachments

  /** A file record of a request's attachment area. */
  datatype AttachedFile = AttachedFile(filepath: string, filename: string, timecreated: int)

  /** What the file storage holds under a record's coordinates. */
  datatype Stored = Stored(isDirectory: bool)

  /** The files that get a list item: those found in storage that are not directories, in order. */
  function Listed(files: seq<AttachedFile>, storage: map<AttachedFile, Stored>): seq<AttachedFile> {
    if files == [] then []
    else
      var last := files[|files| - 1];
      Listed(files[..|files| - 1], storage)
      + (if last in storage && !storage[last].isDirectory then [last] else [])
  }

  /** A file is listed exactly when it is among the records, stored, and not a directory. */
  lemma {:induction false} ListedExactly(files: seq<AttachedFile>, storage: map<AttachedFile, Stored>, f: AttachedFile)
    ensures f in Listed(files, storage) <==> f in files && f in storage && !storage[f].isDirectory
  {
    if files != [] {
      var front := files[..|files| - 1];
      ListedExactly(front, storage, f);
      assert files == front + [files[|files| - 1]];
    }
  }

  /**
   * render_extension_attachments: builds the list, then returns it only
   * when there is more than one file record (the first record is the
   * directory ".").
   */
  method RenderExtensionAttachments(files: seq<AttachedFile>, storage: map<AttachedFile, Stored>)
    returns (r: Option<seq<AttachedFile>>)
    ensures r.Some? <==> |files| > 1
    ensures r.Some? ==> r.value == Listed(files, storage)
  {
    var items := [];
    var i := 0;
    while i < |files|
      invariant 0 <= i <= |files|
      invariant items == Listed(files[..i], storage)
    {
      var file := files[i];
      assert files[..i + 1][..i] == files[..i];
      if file !in storage || storage[file].isDirectory {
        i := i + 1;
        continue;
      }
      items := items + [file];
      i := i + 1;
    }
    assert files[..i] == files;
    if |files| > 1 {
      return Some(items);
    }
    return None;
  }
}
