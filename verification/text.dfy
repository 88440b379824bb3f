/** Small string helpers over `seq<char>` that mirror the JavaScript string
    operations the navigation header relies on: `String.prototype.split` with
    a one-character separator, `startsWith`, `includes`, and the trailing-run
    removal done by `replace(/\/+$/, "")`. */
module Text {

  datatype Option<+T> = None | Some(value: T)

  /** The number of occurrences of `c` in `s`. */
  function Count(s: string, c: char): nat
  {
    if |s| == 0 then 0
    else (if s[0] == c then 1 else 0) + Count(s[1..], c)
  }

  lemma CountZeroIffAbsent(s: string, c: char)
    ensures Count(s, c) == 0 <==> c !in s
  {
    if |s| > 0 {
      CountZeroIffAbsent(s[1..], c);
      assert s == [s[0]] + s[1..];
    }
  }

  lemma CountAppend(a: string, b: string, c: char)
    ensures Count(a + b, c) == Count(a, c) + Count(b, c)
  {
    if |a| > 0 {
      assert (a + b)[0] == a[0];
      assert (a + b)[1..] == a[1..] + b;
      CountAppend(a[1..], b, c);
    } else {
      assert a + b == b;
    }
  }

  /** The index of the first occurrence of `c` in `s`, if any. */
  function IndexOf(s: string, c: char): (r: Option<nat>)
    ensures r.None? <==> c !in s
    ensures r.Some? ==> r.value < |s| && s[r.value] == c && c !in s[..r.value]
  {
    if |s| == 0 then None
    else if s[0] == c then Some(0)
    else match IndexOf(s[1..], c)
      case None => None
      case Some(i) =>
        assert s[..i + 1] == [s[0]] + s[1..][..i];
        Some(i + 1)
  }

  /** `s.split(c)` for a one-character separator: the maximal pieces of `s`
      between occurrences of `c`, in order. */
  function Split(s: string, c: char): (pieces: seq<string>)
    ensures |pieces| >= 1
    ensures forall k :: 0 <= k < |pieces| ==> c !in pieces[k]
    decreases |s|
  {
    match IndexOf(s, c)
    case None => [s]
    case Some(i) => [s[..i]] + Split(s[i + 1..], c)
  }

  /** `pieces.join(c)`: the pieces with one `c` between consecutive pieces. */
  function Join(pieces: seq<string>, c: char): string
    requires |pieces| >= 1
  {
    if |pieces| == 1 then pieces[0]
    else pieces[0] + [c] + Join(pieces[1..], c)
  }

  /** Joining the pieces back with the separator gives the original string. */
  lemma {:induction false} SplitJoin(s: string, c: char)
    ensures Join(Split(s, c), c) == s
    decreases |s|
  {
    match IndexOf(s, c)
    case None =>
    case Some(i) =>
      var rest := s[i + 1..];
      var pieces := Split(rest, c);
      assert Split(s, c) == [s[..i]] + pieces;
      SplitJoin(rest, c);
      JoinCons(s[..i], pieces, c);
      assert s == s[..i] + [c] + rest;
  }

  /** There is exactly one more piece than there are separators. */
  lemma {:induction false} SplitCount(s: string, c: char)
    ensures |Split(s, c)| == Count(s, c) + 1
    decreases |s|
  {
    match IndexOf(s, c)
    case None =>
      CountZeroIffAbsent(s, c);
    case Some(i) =>
      var rest := s[i + 1..];
      assert |Split(s, c)| == 1 + |Split(rest, c)|;
      SplitCount(rest, c);
      assert s == s[..i] + [c] + rest;
      CountSeparated(s[..i], rest, c);
  }

  lemma JoinCons(head: string, tail: seq<string>, c: char)
    requires |tail| >= 1
    ensures Join([head] + tail, c) == head + [c] + Join(tail, c)
  {
    assert ([head] + tail)[1..] == tail;
  }

  lemma CountSeparated(a: string, b: string, c: char)
    requires c !in a
    ensures Count(a + [c] + b, c) == Count(b, c) + 1
  {
    assert a + [c] + b == a + ([c] + b);
    CountAppend(a, [c] + b, c);
    CountAppend([c], b, c);
    CountZeroIffAbsent(a, c);
    assert ([c] + b)[1..] == b;
  }

  /** The first piece of a split is the text before the first separator. */
  lemma SplitHead(s: string, c: char, i: nat)
    requires IndexOf(s, c) == Some(i)
    ensures Split(s, c)[0] == s[..i]
    ensures |Split(s, c)| >= 2
    ensures Split(s, c)[1] == Split(s[i + 1..], c)[0]
  {
  }

  predicate StartsWith(s: string, c: char)
  {
    |s| > 0 && s[0] == c
  }

  /** `s.replace(/c+$/, "")`: drop the maximal run of `c` at the end of `s`. */
  function StripTrailing(s: string, c: char): (r: string)
    ensures |r| <= |s| && r == s[..|r|]
    ensures |r| == 0 || r[|r| - 1] != c
    ensures forall k :: |r| <= k < |s| ==> s[k] == c
  {
    if |s| > 0 && s[|s| - 1] == c then StripTrailing(s[..|s| - 1], c) else s
  }
}
