/** Glob patterns for file dialogs: `*.ext` for each extension and, on
    Windows, the patterns of a filter joined by `;`. */
module Patterns {
  import opened Wrappers

  /** `"*." + ext` for each extension, in order. */
  function Globs(exts: seq<string>): (r: seq<string>)
    ensures |r| == |exts|
    ensures forall i :: 0 <= i < |exts| ==> r[i] == "*." + exts[i]
  {
    if |exts| == 0 then [] else ["*." + exts[0]] + Globs(exts[1..])
  }

  /** The parts separated by single `;`, with none before the first or
      after the last. */
  function Join(parts: seq<string>): (r: string)
    requires |parts| > 0
  {
    if |parts| == 1 then parts[0] else parts[0] + ";" + Join(parts[1..])
  }

  /** The position of the first `;`, if any. */
  function FirstSemicolon(s: string): (r: Option<nat>)
    ensures r.None? <==> ';' !in s
    ensures r.Some? ==> r.value < |s| && s[r.value] == ';' && ';' !in s[..r.value]
  {
    if |s| == 0 then None
    else if s[0] == ';' then Some(0)
    else
      match FirstSemicolon(s[1..])
      case None => None
      case Some(i) =>
        assert s[..i + 1] == [s[0]] + s[1..][..i];
        Some(i + 1)
  }

  /** Cuts a pattern list at every `;`. */
  function Split(s: string): (r: seq<string>)
    ensures |r| > 0
    ensures forall i :: 0 <= i < |r| ==> ';' !in r[i]
    decreases |s|
  {
    match FirstSemicolon(s)
    case None => [s]
    case Some(i) => [s[..i]] + Split(s[i + 1..])
  }

  /** Cutting a joined list at its semicolons gives the parts back, when
      no part holds a `;` itself. */
  lemma {:induction false} SplitJoin(parts: seq<string>)
    requires |parts| > 0
    requires forall i :: 0 <= i < |parts| ==> ';' !in parts[i]
    ensures Split(Join(parts)) == parts
    decreases |parts|
  {
    if |parts| > 1 {
      var s := Join(parts);
      var p := parts[0];
      assert s == p + ";" + Join(parts[1..]);
      FirstAfter(p, Join(parts[1..]));
      assert s[|p| + 1..] == Join(parts[1..]);
      SplitJoin(parts[1..]);
      assert parts == [parts[0]] + parts[1..];
    } else {
      assert ';' !in parts[0];
    }
  }

  /** In `p + ";" + q` with no `;` in `p`, the first `;` is the one after
      `p`. */
  lemma FirstAfter(p: string, q: string)
    requires ';' !in p
    ensures FirstSemicolon(p + ";" + q) == Some(|p|)
    ensures (p + ";" + q)[..|p|] == p
  {
    var s := p + ";" + q;
    var r := FirstSemicolon(s);
    assert s[|p|] == ';';
  }

  /** Joining is the inverse of cutting: a string rebuilt from its pieces is
      the same string. */
  lemma {:induction false} JoinSplit(s: string)
    ensures Join(Split(s)) == s
    decreases |s|
  {
    match FirstSemicolon(s)
    case None =>
    case Some(i) =>
      JoinSplit(s[i + 1..]);
      assert s == s[..i] + ";" + s[i + 1..];
  }

  /** A glob of a `;`-free extension holds no `;`. */
  lemma GlobsHaveNoSemicolon(exts: seq<string>)
    requires forall i :: 0 <= i < |exts| ==> ';' !in exts[i]
    ensures forall i :: 0 <= i < |exts| ==> ';' !in Globs(exts)[i]
  {
    forall i | 0 <= i < |exts|
      ensures ';' !in Globs(exts)[i]
    {
      assert Globs(exts)[i] == "*." + exts[i];
    }
  }
}
