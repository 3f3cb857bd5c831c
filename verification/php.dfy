/**
 * The few pieces of PHP runtime behaviour that the modelled code relies on:
 * null, empty() on strings, strtok() with a single-space delimiter and implode().
 */
module Php {

  /** PHP's null, or a value. */
  datatype Option<+T> = None | Some(value: T)

  /** empty() applied to a string: both "" and "0" are empty in PHP. */
  predicate EmptyString(s: string) {
    s == "" || s == "0"
  }

  /** A token as strtok returns it: non-empty and free of the delimiter ' '. */
  predicate IsToken(w: string) {
    |w| > 0 && forall i :: 0 <= i < |w| ==> w[i] != ' '
  }

  /** Length of the run of characters other than delim that starts s. */
  function RunLength(s: string, delim: char): (n: nat)
    ensures n <= |s|
    ensures forall i :: 0 <= i < n ==> s[i] != delim
    ensures n < |s| ==> s[n] == delim
  {
    if s == [] || s[0] == delim then 0 else 1 + RunLength(s[1..], delim)
  }

  /**
   * The successive results of strtok(s, ' ') followed by strtok(' ') calls,
   * up to the first call that returns false: the maximal runs of
   * non-space characters of s, in order.
   */
  function Tokens(s: string): (ts: seq<string>)
    ensures forall i :: 0 <= i < |ts| ==> IsToken(ts[i])
    decreases |s|
  {
    if s == [] then []
    else if s[0] == ' ' then Tokens(s[1..])
    else
      var n := RunLength(s, ' ');
      [s[..n]] + Tokens(s[n..])
  }

  /** A token followed by nothing or by a delimiter is returned whole, and tokenising goes on after it. */
  lemma TokensAfterWord(w: string, rest: string)
    requires IsToken(w)
    requires rest == [] || rest[0] == ' '
    ensures Tokens(w + rest) == [w] + Tokens(rest)
  {
    var s := w + rest;
    var n := RunLength(s, ' ');
    assert forall i :: 0 <= i < |w| ==> s[i] == w[i];
    assert |w| < |s| ==> s[|w|] == ' ';
    assert n == |w|;
    assert s[..n] == w;
    assert s[n..] == rest;
  }

  /** A leading delimiter is skipped. */
  lemma TokensAfterSpace(s: string)
    ensures Tokens(" " + s) == Tokens(s)
  {
    assert (" " + s)[0] == ' ';
    assert (" " + s)[1..] == s;
  }

  /** implode(sep, parts). */
  function Implode(sep: string, parts: seq<string>): string {
    if parts == [] then ""
    else if |parts| == 1 then parts[0]
    else parts[0] + sep + Implode(sep, parts[1..])
  }
}
