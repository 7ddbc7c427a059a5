/** Normalisation of the colon-separated pieces of an address into eight
    four-character groups: the loose `::` expansion of `expandSegments`
    followed by the zero padding of `normalizeSegments`. */
module Segments {
  import opened Outcomes
  import opened Positional
  import opened PhpStrings
  import opened BaseConvert

  const GroupCount: nat := 8
  const ZeroGroup: string := "0000"
  const ExpandFailure: string := "Expanding segments failed for unknown reason"

  /** The number of pieces that `empty` accepts ("" or "0"): each of them
      stands for compressed zeros. */
  function PlaceholderCount(segs: seq<string>): (k: nat)
    ensures k <= |segs|
    ensures k == 0 <==> forall i :: 0 <= i < |segs| ==> !IsPhpEmpty(segs[i])
  {
    if segs == [] then 0
    else
      assert forall i :: 0 <= i < |segs| - 1 ==> segs[..|segs| - 1][i] == segs[i];
      PlaceholderCount(segs[..|segs| - 1]) + (if IsPhpEmpty(segs[|segs| - 1]) then 1 else 0)
  }

  /** Zero groups written per placeholder when there are `c` pieces: the loop
      `for ($i = 0; $i <= 8 - c; $i++)` runs `9 - c` times, never when c > 8. */
  function Copies(c: nat): nat {
    if c <= GroupCount then GroupCount + 1 - c else 0
  }

  /** What one piece contributes to the expanded list. */
  function ExpandOne(seg: string, copies: nat): seq<string> {
    if IsPhpEmpty(seg) then Repeat(ZeroGroup, copies) else [seg]
  }

  /** The `foreach` of `expandSegments` over a list of pieces. */
  function ExpandEach(segs: seq<string>, copies: nat): seq<string> {
    if segs == [] then []
    else ExpandEach(segs[..|segs| - 1], copies) + ExpandOne(segs[|segs| - 1], copies)
  }

  /** `expandSegments`: eight pieces are kept as they are; otherwise every
      placeholder is expanded, and anything but eight groups throws. */
  function Expand(segs: seq<string>): (r: Flow<seq<string>>)
    ensures r.Returned? ==> |r.value| == GroupCount
    ensures r.Thrown? ==> r.message == ExpandFailure
  {
    if |segs| == GroupCount then Returned(segs)
    else
      var expanded := ExpandEach(segs, Copies(|segs|));
      if |expanded| == GroupCount then Returned(expanded) else Thrown(ExpandFailure)
  }

  /** `str_pad($segment, 4, '0', STR_PAD_LEFT)`: at least four characters,
      and never shorter than the group. */
  function PadGroup(seg: string): (r: string)
    ensures |r| == if |seg| >= 4 then |seg| else 4
  {
    PadLeft(seg, 4, '0')
  }

  function PadAll(segs: seq<string>): seq<string> {
    seq(|segs|, i requires 0 <= i < |segs| => PadGroup(segs[i]))
  }

  /** `normalizeSegments`: expansion, then zero padding of every group. The
      result has eight groups of at least four characters each. */
  function Normalize(segs: seq<string>): (r: Flow<seq<string>>)
    ensures r.Returned? ==> |r.value| == GroupCount && forall i :: 0 <= i < GroupCount ==> |r.value[i]| >= 4
    ensures r.Thrown? ==> r.message == ExpandFailure
  {
    match Expand(segs)
    case Returned(expanded) => Returned(PadAll(expanded))
    case Thrown(m) => Thrown(m)
  }

  lemma {:induction false} ExpandEachConcat(a: seq<string>, b: seq<string>, copies: nat)
    ensures ExpandEach(a + b, copies) == ExpandEach(a, copies) + ExpandEach(b, copies)
    decreases |b|
  {
    if b == [] {
      assert a + b == a;
    } else {
      var init := b[..|b| - 1];
      assert (a + b)[..|a + b| - 1] == a + init;
      ExpandEachConcat(a, init, copies);
    }
  }

  lemma {:induction false} PlaceholderCountConcat(a: seq<string>, b: seq<string>)
    ensures PlaceholderCount(a + b) == PlaceholderCount(a) + PlaceholderCount(b)
    decreases |b|
  {
    if b == [] {
      assert a + b == a;
    } else {
      assert (a + b)[..|a + b| - 1] == a + b[..|b| - 1];
      PlaceholderCountConcat(a, b[..|b| - 1]);
    }
  }

  /** Each placeholder turns into `copies` groups, every other piece into one. */
  lemma {:induction false} ExpandEachLength(segs: seq<string>, copies: nat)
    ensures |ExpandEach(segs, copies)| + PlaceholderCount(segs) == |segs| + PlaceholderCount(segs) * copies
  {
    if segs != [] {
      var init, last := segs[..|segs| - 1], segs[|segs| - 1];
      ExpandEachLength(init, copies);
      var k := PlaceholderCount(init);
      assert |ExpandEach(segs, copies)| == |ExpandEach(init, copies)| + |ExpandOne(last, copies)|;
      if IsPhpEmpty(last) {
        assert PlaceholderCount(segs) == k + 1;
        MulSucc(k, copies);
      } else {
        assert PlaceholderCount(segs) == k;
      }
    }
  }

  lemma MulSucc(k: nat, c: nat)
    ensures (k + 1) * c == k * c + c
  {
  }

  /** Pieces that are not placeholders pass through in order. */
  lemma {:induction false} ExpandEachNoPlaceholder(segs: seq<string>, copies: nat)
    requires PlaceholderCount(segs) == 0
    ensures ExpandEach(segs, copies) == segs
  {
    if segs != [] {
      var init := segs[..|segs| - 1];
      assert PlaceholderCount(init) == 0;
      ExpandEachNoPlaceholder(init, copies);
      assert init + [segs[|segs| - 1]] == segs;
    }
  }

  /** With at most eight pieces, expansion succeeds exactly when there are
      eight pieces already or exactly one placeholder among fewer. */
  lemma ExpandSucceedsIff(segs: seq<string>)
    requires |segs| <= GroupCount
    ensures Expand(segs).Returned? <==> |segs| == GroupCount || PlaceholderCount(segs) == 1
  {
    if |segs| < GroupCount {
      var c, k := |segs|, PlaceholderCount(segs);
      ExpandEachLength(segs, Copies(c));
      PlaceholderArithmetic(|ExpandEach(segs, Copies(c))|, c, k);
    }
  }

  lemma PlaceholderArithmetic(len: nat, c: nat, k: nat)
    requires c < 8 && len + k == c + k * (9 - c)
    ensures len == 8 <==> k == 1
  {
    assert k * (9 - c) == k * (8 - c) + k;
    if k >= 2 {
      assert k * (8 - c) >= 2 * (8 - c);
    }
  }

  /** The one `::` case of section 2.2 of RFC 4291: a single placeholder
      between placeholder-free pieces becomes the zero groups that bring the
      address to eight groups, and the other pieces keep their order. */
  lemma ExpandSingleCompression(pre: seq<string>, mark: string, post: seq<string>)
    requires IsPhpEmpty(mark)
    requires PlaceholderCount(pre) == 0 && PlaceholderCount(post) == 0
    requires |pre| + |post| <= 6
    ensures Expand(pre + [mark] + post) == Returned(pre + Repeat(ZeroGroup, GroupCount - |pre| - |post|) + post)
  {
    var segs := pre + [mark] + post;
    var copies := Copies(|segs|);
    assert copies == GroupCount - |pre| - |post|;
    ExpandAroundPlaceholder(pre, mark, post, copies);
  }

  /** Expanding pieces around one placeholder puts `copies` zero groups in
      its place. */
  lemma ExpandAroundPlaceholder(pre: seq<string>, mark: string, post: seq<string>, copies: nat)
    requires IsPhpEmpty(mark)
    requires PlaceholderCount(pre) == 0 && PlaceholderCount(post) == 0
    ensures ExpandEach(pre + [mark] + post, copies) == pre + Repeat(ZeroGroup, copies) + post
  {
    ExpandEachConcat(pre + [mark], post, copies);
    ExpandEachConcat(pre, [mark], copies);
    assert ExpandEach([mark], copies) == ExpandOne(mark, copies) by {
      assert [mark][..0] == [];
    }
    ExpandEachNoPlaceholder(pre, copies);
    ExpandEachNoPlaceholder(post, copies);
  }

  /** Splitting a string that ends in a separator yields a last empty piece. */
  lemma {:induction false} SplitEndingInSeparator(y: string, d: char)
    ensures Split(y + [d], d) == Split(y, d) + [""]
  {
    if y == [] {
      assert [] + [d] == [d];
      assert [d][1..] == [];
    } else {
      SplitEndingInSeparator(y[1..], d);
      assert (y + [d])[1..] == y[1..] + [d];
    }
  }

  /** Two or more placeholders among fewer than eight pieces always throw. */
  lemma ManyPlaceholdersThrow(segs: seq<string>)
    requires |segs| < GroupCount && PlaceholderCount(segs) >= 2
    ensures Expand(segs) == Thrown(ExpandFailure)
  {
    ExpandSucceedsIff(segs);
  }

  /** An address that starts with `::` and has fewer than eight pieces is not
      expanded: the two leading empty pieces are each expanded and the
      expansion throws. */
  lemma LeadingCompressionThrows(rest: string)
    requires Count(rest, ':') < 5
    ensures Normalize(Split("::" + rest, ':')) == Thrown(ExpandFailure)
  {
    var segs := Split("::" + rest, ':');
    assert ("::" + rest)[1..] == ":" + rest;
    assert (":" + rest)[1..] == rest;
    assert segs == [""] + Split(":" + rest, ':');
    assert Split(":" + rest, ':') == [""] + Split(rest, ':');
    assert segs == ["", ""] + Split(rest, ':');
    PlaceholderCountConcat(["", ""], Split(rest, ':'));
    assert PlaceholderCount(["", ""]) == 2 by {
      assert ["", ""][..1] == [""];
      assert [""][..0] == [];
    }
    ManyPlaceholdersThrow(segs);
  }

  /** The same for an address that ends in `::`. */
  lemma TrailingCompressionThrows(init: string)
    requires Count(init, ':') < 5
    ensures Normalize(Split(init + "::", ':')) == Thrown(ExpandFailure)
  {
    SplitEndingInDoubleSeparator(init);
    TwoTrailingPlaceholders(Split(init, ':'));
    ManyPlaceholdersThrow(Split(init, ':') + ["", ""]);
  }

  lemma SplitEndingInDoubleSeparator(init: string)
    ensures Split(init + "::", ':') == Split(init, ':') + ["", ""]
  {
    SplitEndingInSeparator(init + ":", ':');
    SplitEndingInSeparator(init, ':');
    assert init + "::" == (init + ":") + ":";
  }

  lemma TwoTrailingPlaceholders(segs: seq<string>)
    ensures PlaceholderCount(segs + ["", ""]) >= 2
  {
    PlaceholderCountConcat(segs, ["", ""]);
    assert ["", ""][..1] == [""];
    assert [""][..0] == [];
  }

  /** Padding keeps a group's length when it has four characters or more,
      otherwise prefixes zeros up to four; it is idempotent and does not
      change the value `base_convert` reads from the group. */
  lemma PadGroupFacts(seg: string)
    ensures |seg| >= 4 ==> PadGroup(seg) == seg
    ensures |seg| < 4 ==> PadGroup(seg) == Repeat('0', 4 - |seg|) + seg && |PadGroup(seg)| == 4
    ensures PadGroup(PadGroup(seg)) == PadGroup(seg)
    ensures ParseBase(PadGroup(seg), 16) == ParseBase(seg, 16)
  {
    if |seg| < 4 {
      ParseLeadingZeros(seg, 4 - |seg|, 16);
    }
  }

  /** Normalising what normalisation produced changes nothing. */
  lemma NormalizeIdempotent(segs: seq<string>)
    requires Normalize(segs).Returned?
    ensures Normalize(Normalize(segs).value) == Normalize(segs)
  {
    var n := Normalize(segs).value;
    forall i | 0 <= i < |n| ensures PadGroup(n[i]) == n[i] {
      PadGroupFacts(n[i]);
    }
    assert PadAll(n) == n;
  }

  /** A fully written address of eight four-character groups is left as it is. */
  lemma NormalizeFullAddress(segs: seq<string>)
    requires |segs| == GroupCount && forall i :: 0 <= i < GroupCount ==> |segs[i]| == 4
    ensures Normalize(segs) == Returned(segs)
  {
    assert PadAll(segs) == segs;
  }

  /** Normalization only brings in the character '0': any other character
      absent from every piece is absent from every group. */
  lemma NormalizeKeepsCharacters(segs: seq<string>, c: char)
    requires c != '0' && forall i :: 0 <= i < |segs| ==> c !in segs[i]
    requires Normalize(segs).Returned?
    ensures forall i :: 0 <= i < |Normalize(segs).value| ==> c !in Normalize(segs).value[i]
  {
    var expanded := Expand(segs).value;
    if |segs| != GroupCount {
      ExpandEachKeepsCharacters(segs, Copies(|segs|), c);
    }
    forall i | 0 <= i < |expanded| ensures c !in PadGroup(expanded[i]) {
      PadGroupFacts(expanded[i]);
      if |expanded[i]| < 4 {
        assert PadGroup(expanded[i]) == Repeat('0', 4 - |expanded[i]|) + expanded[i];
      }
    }
  }

  lemma {:induction false} ExpandEachKeepsCharacters(segs: seq<string>, copies: nat, c: char)
    requires c != '0' && forall i :: 0 <= i < |segs| ==> c !in segs[i]
    ensures forall i :: 0 <= i < |ExpandEach(segs, copies)| ==> c !in ExpandEach(segs, copies)[i]
  {
    if segs != [] {
      var init, last := segs[..|segs| - 1], segs[|segs| - 1];
      ExpandEachKeepsCharacters(init, copies, c);
      var head, tail := ExpandEach(init, copies), ExpandOne(last, copies);
      assert forall i :: 0 <= i < |tail| ==> c !in tail[i];
      assert ExpandEach(segs, copies) == head + tail;
    }
  }
}
