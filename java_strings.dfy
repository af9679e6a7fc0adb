/**
 * The java.lang.String operations the statistics encoders use, on `seq<char>`:
 * indexOf of a character, splitting on a one-character separator with the
 * trailing-empty-part removal of String.split, and joining parts with a separator.
 */
module JavaStrings {

  /** String.indexOf(c): the first position of `c` in `s`, or -1 when `s` does not contain it. */
  function IndexOf(s: string, c: char): (k: int)
    ensures -1 <= k < |s|
    ensures k == -1 <==> c !in s
    ensures k >= 0 ==> s[k] == c && c !in s[..k]
  {
    if |s| == 0 then -1
    else if s[0] == c then 0
    else
      var k := IndexOf(s[1..], c);
      assert s[1..][..if k >= 0 then k else 0] == s[1..if k >= 0 then k + 1 else 1];
      if k == -1 then -1 else k + 1
  }

  /** `s` cut at every occurrence of `c`, keeping every part, empty ones included. */
  function SplitAll(s: string, c: char): (parts: seq<string>)
    ensures |parts| >= 1
  {
    if |s| == 0 then [""]
    else if s[0] == c then [""] + SplitAll(s[1..], c)
    else
      var rest := SplitAll(s[1..], c);
      [[s[0]] + rest[0]] + rest[1..]
  }

  /** No part holds the separator. */
  lemma {:induction false} SplitAllPartsFree(s: string, c: char)
    ensures forall k :: 0 <= k < |SplitAll(s, c)| ==> c !in SplitAll(s, c)[k]
  {
    if |s| > 0 {
      SplitAllPartsFree(s[1..], c);
    }
  }

  /** The parts written one after the other with `c` between consecutive ones. */
  function Join(parts: seq<string>, c: char): string {
    if |parts| == 0 then ""
    else if |parts| == 1 then parts[0]
    else parts[0] + [c] + Join(parts[1..], c)
  }

  /** Joining the parts of a split gives back the string. */
  lemma {:induction false} JoinSplitAll(s: string, c: char)
    ensures Join(SplitAll(s, c), c) == s
  {
    if |s| == 0 {
    } else if s[0] == c {
      JoinSplitAll(s[1..], c);
      assert s == [c] + s[1..];
    } else {
      var rest := SplitAll(s[1..], c);
      JoinSplitAll(s[1..], c);
      var parts := SplitAll(s, c);
      assert parts == [[s[0]] + rest[0]] + rest[1..];
      if |rest| == 1 {
        assert Join(parts, c) == [s[0]] + rest[0];
      } else {
        assert parts[1..] == rest[1..];
        assert Join(parts, c) == [s[0]] + rest[0] + [c] + Join(rest[1..], c);
        assert Join(rest, c) == rest[0] + [c] + Join(rest[1..], c);
      }
      assert s == [s[0]] + s[1..];
    }
  }

  /** Splitting a joined list of parts none of which holds the separator gives back the parts. */
  lemma {:induction false} SplitAllJoin(parts: seq<string>, c: char)
    requires |parts| >= 1
    requires forall k :: 0 <= k < |parts| ==> c !in parts[k]
    ensures SplitAll(Join(parts, c), c) == parts
  {
    if |parts| == 1 {
      SplitAllOfPart(parts[0], [], c);
    } else {
      SplitAllJoin(parts[1..], c);
      SplitAllOfPart(parts[0], Join(parts[1..], c), c);
      assert [parts[0]] + parts[1..] == parts;
    }
  }

  /** A part free of the separator, then the separator: it becomes the first part. */
  lemma {:induction false} SplitAllOfPart(p: string, tail: string, c: char)
    requires c !in p
    ensures |tail| == 0 ==> SplitAll(p, c) == [p]
    ensures SplitAll(p + [c] + tail, c) == [p] + SplitAll(tail, c)
  {
    if |p| == 0 {
      assert p + [c] + tail == [c] + tail;
      assert ([c] + tail)[1..] == tail;
    } else {
      SplitAllOfPart(p[1..], tail, c);
      assert (p + [c] + tail)[1..] == p[1..] + [c] + tail;
      assert [p[0]] + p[1..] == p;
    }
  }

  /** The first part is what comes before the first separator. */
  lemma {:induction false} SplitAllFirstPart(s: string, c: char)
    requires c in s
    ensures SplitAll(s, c)[0] == s[..IndexOf(s, c)]
  {
    if s[0] != c {
      SplitAllFirstPart(s[1..], c);
    }
  }

  /** When `s` does not end with the separator, its last part is not empty. */
  lemma {:induction false} SplitAllLastPart(s: string, c: char)
    requires |s| > 0 && s[|s| - 1] != c
    ensures SplitAll(s, c)[|SplitAll(s, c)| - 1] != ""
  {
    if |s| == 1 {
      assert SplitAll(s[1..], c) == [""];
    } else {
      SplitAllLastPart(s[1..], c);
    }
  }

  /** The parts with the run of empty parts at the end removed, as String.split does. */
  function StripTrailingEmpty(parts: seq<string>): (kept: seq<string>)
    ensures |kept| <= |parts| && kept == parts[..|kept|]
    ensures forall k :: |kept| <= k < |parts| ==> parts[k] == ""
    ensures |kept| == 0 || kept[|kept| - 1] != ""
  {
    if |parts| == 0 then []
    else if parts[|parts| - 1] == "" then StripTrailingEmpty(parts[..|parts| - 1])
    else parts
  }

  /** String.split(c) for a one-character separator that is not a regular-expression
      metacharacter: the string itself when it has no separator, otherwise the parts
      between separators with the trailing empty parts dropped. */
  function Split(s: string, c: char): (parts: seq<string>)
    ensures c !in s ==> parts == [s]
    ensures c in s ==> |parts| <= |SplitAll(s, c)| && parts == SplitAll(s, c)[..|parts|]
    ensures c in s ==> forall k :: |parts| <= k < |SplitAll(s, c)| ==> SplitAll(s, c)[k] == ""
    ensures c in s ==> |parts| == 0 || parts[|parts| - 1] != ""
  {
    if c !in s then [s] else StripTrailingEmpty(SplitAll(s, c))
  }

  /** A string that does not end with the separator is the join of its split. */
  lemma JoinSplit(s: string, c: char)
    requires |s| > 0 && s[|s| - 1] != c
    ensures Join(Split(s, c), c) == s
  {
    if c in s {
      SplitAllLastPart(s, c);
      assert Split(s, c) == SplitAll(s, c);
      JoinSplitAll(s, c);
    }
  }
}
