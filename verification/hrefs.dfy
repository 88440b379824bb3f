/** Splitting a navigation href into the page part and the `#fragment` part
    (`splitBaseAndHash` in components/custom/navbar.tsx). */
module Hrefs {
  import opened Text

  /** An href's page part `base` ("" for a fragment-only href) and its
      fragment `hash` ("" when there is none, otherwise starting with '#'). */
  datatype Parts = Parts(base: string, hash: string)

  /** The href contains a '#' that is not its first character. */
  predicate HasInnerHash(href: string)
  {
    !StartsWith(href, '#') && '#' in href
  }

  function SplitBaseAndHash(href: string): (p: Parts)
    ensures '#' !in href ==> p == Parts(href, "")
    ensures StartsWith(href, '#') ==> p == Parts("", href)
    ensures HasInnerHash(href) ==> InnerSplit(href, p)
  {
    if StartsWith(href, '#') then Parts("", href)
    else if '#' in href then SplitAtFirstHash(href)
    else Parts(href, "")
  }

  /** What splitting an href at an inner '#' yields: a '#'-free page part,
      then '#' and the '#'-free text up to the next '#' or the end. */
  predicate InnerSplit(href: string, p: Parts)
  {
    && |p.base| > 0 && '#' !in p.base
    && |p.hash| > 0 && p.hash[0] == '#' && '#' !in p.hash[1..]
    && |p.base| + |p.hash| <= |href|
    && href[..|p.base| + |p.hash|] == p.base + p.hash
    && (|p.base| + |p.hash| == |href| || href[|p.base| + |p.hash|] == '#')
  }

  /** The `href.split("#")` branch: the first two pieces become the parts
      (an empty first piece would become "/", but that branch is only taken
      when the href does not start with '#'). */
  function SplitAtFirstHash(href: string): (p: Parts)
    requires HasInnerHash(href)
    ensures InnerSplit(href, p)
  {
    var pieces := Split(href, '#');
    FirstTwoPieces(href, IndexOf(href, '#').value);
    Parts(if pieces[0] == "" then "/" else pieces[0], "#" + pieces[1])
  }

  /** The shape of the first two pieces of an href split at '#'. */
  lemma FirstTwoPieces(href: string, i: nat)
    requires IndexOf(href, '#') == Some(i) && i > 0
    ensures |Split(href, '#')| >= 2 && Split(href, '#')[0] != ""
    ensures InnerSplit(href, Parts(Split(href, '#')[0], "#" + Split(href, '#')[1]))
  {
    SplitHead(href, '#', i);
    var rest := href[i + 1..];
    PieceBeforeSeparator(rest, '#');
    InnerSplitAt(href, i, Split(href, '#')[1]);
  }

  /** Cutting an href at its first '#' (position `i`) and at the following
      '#' or the end gives an inner split. */
  lemma InnerSplitAt(href: string, i: nat, h: string)
    requires 0 < i < |href| && href[i] == '#' && '#' !in href[..i]
    requires '#' !in h && |h| <= |href| - i - 1 && href[i + 1..][..|h|] == h
    requires |h| == |href| - i - 1 || href[i + 1..][|h|] == '#'
    ensures InnerSplit(href, Parts(href[..i], "#" + h))
  {
    assert href[..i + 1 + |h|] == href[..i] + "#" + h;
    assert ("#" + h)[1..] == h;
  }

  /** The first piece of a split is a prefix followed by a separator or the
      end of the string. */
  lemma PieceBeforeSeparator(s: string, c: char)
    ensures |Split(s, c)[0]| <= |s|
    ensures s[..|Split(s, c)[0]|] == Split(s, c)[0]
    ensures |Split(s, c)[0]| == |s| || s[|Split(s, c)[0]|] == c
    ensures |Split(s, c)[0]| == |s| <==> c !in s
  {
  }

  /** The fragment part is non-empty exactly when the href has a '#'; the
      page part is empty exactly when the href is empty or starts with '#'. */
  lemma PartsPresence(href: string)
    ensures SplitBaseAndHash(href).hash != "" <==> '#' in href
    ensures SplitBaseAndHash(href).base == "" <==> href == "" || StartsWith(href, '#')
    ensures SplitBaseAndHash(href).hash != "" ==> SplitBaseAndHash(href).hash[0] == '#'
  {
  }

  /** Gluing the parts back together gives the href exactly when nothing was
      dropped: the href starts with '#' or has at most one '#'. Text after a
      second '#' is lost. */
  lemma {:induction false} PartsRejoin(href: string)
    ensures SplitBaseAndHash(href).base + SplitBaseAndHash(href).hash == href
        <==> StartsWith(href, '#') || Count(href, '#') <= 1
  {
    var p := SplitBaseAndHash(href);
    if HasInnerHash(href) {
      var i := IndexOf(href, '#').value;
      var rest := href[i + 1..];
      assert href == href[..i] + ['#'] + rest;
      CountSeparated(href[..i], rest, '#');
      CountZeroIffAbsent(rest, '#');
      SplitHead(href, '#', i);
      PieceBeforeSeparator(rest, '#');
      assert p.base == href[..i];
      assert p.hash == "#" + Split(rest, '#')[0];
      if '#' in rest {
        assert |p.base + p.hash| < |href|;
      } else {
        assert p.base + p.hash == href[..i] + ['#'] + rest;
      }
    } else if !StartsWith(href, '#') {
      CountZeroIffAbsent(href, '#');
      assert p.base + p.hash == href;
    }
  }
}
