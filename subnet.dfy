/** The range computation of `calcSubnet`: the group holding the prefix
    boundary keeps its leading prefix bits and has its other bits cleared
    (minimum) or set (maximum); groups before it are copied, groups after it
    become "0000" and "ffff". */
module Subnet {
  import opened Positional
  import opened PhpStrings
  import opened BaseConvert
  import opened Segments

  const GroupBits: nat := 16
  const GroupLimit: nat := 0x1_0000
  const FullGroup: string := "ffff"

  /** The mask expression of `calcSubnet` for a group and the number `fixed` of
      prefix bits inside it: the group is read as hex, written in binary padded
      to sixteen digits, its first `fixed` digits are padded on the right with
      zeros (minimum) or ones (maximum), and each is written back as four hex
      digits. Whatever the group, both results are four lower-case hex digits
      and the minimum is not above the maximum. */
  function BoundaryGroups(segment: string, fixed: nat): (r: (string, string))
    requires fixed < GroupBits
    ensures |r.0| == 4 && |r.1| == 4 && IsLowerDigits(r.0, 16) && IsLowerDigits(r.1, 16)
    ensures ParseBase(r.0, 16) <= ParseBase(r.1, 16)
  {
    var bin := PadLeft(ToBase(ParseBase(segment, 16), 2), GroupBits, '0');
    var kept := bin[..fixed];
    PaddedBounds(kept);
    Hex4RoundTrip(ParseBase(PadRight(kept, GroupBits, '0'), 2));
    Hex4RoundTrip(ParseBase(PadRight(kept, GroupBits, '1'), 2));
    (Hex4(ParseBase(PadRight(kept, GroupBits, '0'), 2)),
     Hex4(ParseBase(PadRight(kept, GroupBits, '1'), 2)))
  }

  /** Fewer than sixteen binary digits padded to a full group with zeros are
      worth no more than when padded with ones, and both fit in 16 bits. */
  lemma PaddedBounds(kept: string)
    requires |kept| < GroupBits
    ensures ParseBase(PadRight(kept, GroupBits, '0'), 2) <= ParseBase(PadRight(kept, GroupBits, '1'), 2) < GroupLimit
  {
    var k := GroupBits - |kept|;
    var high := ParseBase(kept, 2);
    ParseZeros(k);
    ParseOnes(k);
    PadWithBits(kept, k, '0', high, 0, high * Pow(2, k));
    PadWithBits(kept, k, '1', high, Pow(2, k) - 1, high * Pow(2, k) + Pow(2, k) - 1);
    PowGroup();
  }

  /** `v` with its `k` low bits cleared. */
  function ClearLow(v: nat, k: nat): nat {
    (v / Pow(2, k)) * Pow(2, k)
  }

  /** `v` with its `k` low bits set. */
  function SetLow(v: nat, k: nat): nat {
    ClearLow(v, k) + Pow(2, k) - 1
  }

  /** The group list of the minimum address for prefix length `p`: the
      groups before the boundary are copied, and every group after it is
      "0000". With `p == 128` the boundary index is 8: the missing group reads
      as "" and the boundary group is appended as a ninth group. */
  function MinGroups(segments: seq<string>, p: nat): (r: seq<string>)
    requires |segments| == GroupCount && p <= 128
    ensures |r| == if p < 128 then GroupCount else GroupCount + 1
    ensures r[..p / GroupBits] == segments[..p / GroupBits]
    ensures forall i :: p / GroupBits < i < |r| ==> r[i] == ZeroGroup
  {
    var g, m := p / GroupBits, p % GroupBits;
    var segment := if g < GroupCount then segments[g] else "";
    var tail := if g < GroupCount then 7 - g else 0;
    AroundParts(segments[..g], BoundaryGroups(segment, m).0, ZeroGroup, tail);
    segments[..g] + [BoundaryGroups(segment, m).0] + Repeat(ZeroGroup, tail)
  }

  /** The group list of the maximum address for prefix length `p`: the
      groups before the boundary are copied, and every group after it is
      "ffff". */
  function MaxGroups(segments: seq<string>, p: nat): (r: seq<string>)
    requires |segments| == GroupCount && p <= 128
    ensures |r| == if p < 128 then GroupCount else GroupCount + 1
    ensures r[..p / GroupBits] == segments[..p / GroupBits]
    ensures forall i :: p / GroupBits < i < |r| ==> r[i] == FullGroup
  {
    var g, m := p / GroupBits, p % GroupBits;
    var segment := if g < GroupCount then segments[g] else "";
    var tail := if g < GroupCount then 7 - g else 0;
    AroundParts(segments[..g], BoundaryGroups(segment, m).1, FullGroup, tail);
    segments[..g] + [BoundaryGroups(segment, m).1] + Repeat(FullGroup, tail)
  }

  /** A list cut at one element: its head is `pre`, and everything after the
      cut is `filler`. */
  lemma AroundParts<T>(pre: seq<T>, x: T, filler: T, n: nat)
    ensures |pre + [x] + Repeat(filler, n)| == |pre| + 1 + n
    ensures (pre + [x] + Repeat(filler, n))[..|pre|] == pre
    ensures forall i :: |pre| < i < |pre| + 1 + n ==> (pre + [x] + Repeat(filler, n))[i] == filler
  {
    var r := pre + [x] + Repeat(filler, n);
    assert r[..|pre|] == pre;
    forall i | |pre| < i < |pre| + 1 + n
      ensures r[i] == filler
    {
      assert r[i] == Repeat(filler, n)[i - |pre| - 1];
    }
  }

  /** Number of addresses in a block with prefix length `p`: never zero, and
      halved by every further prefix bit. */
  function Hosts(p: nat): (h: nat)
    requires p <= 128
    ensures h >= 1
  {
    Pow(2, 128 - p)
  }

  /** One more prefix bit halves the block. */
  lemma HostsHalve(p: nat)
    requires p < 128
    ensures Hosts(p) == 2 * Hosts(p + 1)
  {
    assert 128 - p == (128 - (p + 1)) + 1;
  }

  /** The 16-bit values of the groups, as `base_convert` reads them. */
  function GroupValues(segments: seq<string>): (vs: seq<nat>)
    ensures |vs| == |segments|
  {
    seq(|segments|, i requires 0 <= i < |segments| => ParseBase(segments[i], 16))
  }

  /** The 128-bit number an address of eight groups stands for. */
  function AddressValue(segments: seq<string>): nat {
    Eval(GroupValues(segments), GroupLimit)
  }

  /** Every group is worth less than 2^16. */
  predicate GroupsFit(segments: seq<string>) {
    forall i :: 0 <= i < |segments| ==> ParseBase(segments[i], 16) < GroupLimit
  }

  // ---------------------------------------------------------------------------
  // The boundary group

  lemma PowGroup()
    ensures Pow(2, GroupBits) == GroupLimit
  {
    assert Pow(2, 4) == 16;
    PowMul(2, 4, 4);
    assert Pow(16, 4) == GroupLimit;
  }

  /** Clearing or setting the `k` low bits of a 16-bit value: the result
      agrees with `v` above bit `k`, has only zeros (ones) below it, and lies
      below (above) `v` within 16 bits. */
  lemma MaskFacts(v: nat, k: nat)
    requires v < GroupLimit && k <= GroupBits
    ensures ClearLow(v, k) <= v <= SetLow(v, k) < GroupLimit
    ensures ClearLow(v, k) % Pow(2, k) == 0 && SetLow(v, k) % Pow(2, k) == Pow(2, k) - 1
    ensures ClearLow(v, k) / Pow(2, k) == v / Pow(2, k) == SetLow(v, k) / Pow(2, k)
  {
    var kk, hi := Pow(2, k), Pow(2, GroupBits - k);
    assert hi * kk == GroupLimit by {
      PowAdd(2, GroupBits - k, k);
      assert GroupBits - k + k == GroupBits;
      PowGroup();
    }
    MaskArith(v, kk, hi, GroupLimit, ClearLow(v, k), SetLow(v, k));
  }

  lemma MaskArith(v: nat, kk: nat, hi: nat, limit: nat, lo: nat, up: nat)
    requires kk >= 1 && limit == hi * kk && v < limit && lo == (v / kk) * kk && up == lo + kk - 1
    ensures lo <= v <= up < limit
    ensures lo % kk == 0 && up % kk == kk - 1
    ensures lo / kk == v / kk == up / kk
  {
    var q := v / kk;
    DivMod(v, kk);
    DivModUnique(lo, kk, q, 0);
    DivModUnique(up, kk, q, kk - 1);
    DivBelowPow2(v, kk, hi);
    MulMonotone(q + 1, hi, kk);
  }

  lemma DivBelowPow2(v: nat, kk: nat, hi: nat)
    requires kk >= 1 && v < hi * kk
    ensures v / kk < hi
  {
    DivMod(v, kk);
    MulMonotone(hi, v / kk, kk);
  }

  /** Sixteen binary digits read back give the value they were written from. */
  lemma BinaryOfGroup(v: nat)
    requires v < GroupLimit
    ensures PadLeft(ToBase(v, 2), GroupBits, '0') == ToBaseWidth(v, 2, GroupBits)
    ensures ParseBase(ToBaseWidth(v, 2, GroupBits), 2) == v
  {
    PowGroup();
    PadToBase(v, 2, GroupBits);
    ParseToBaseWidth(v, 2, GroupBits);
  }

  /** `k` binary ones are worth `2^k - 1`. */
  lemma ParseOnes(k: nat)
    ensures ParseBase(Repeat('1', k), 2) == Pow(2, k) - 1
  {
    OneDigitValues(k);
    EvalMaxDigits(k, 2);
    assert Repeat<nat>(2 - 1, k) == Repeat<nat>(1, k);
  }

  lemma {:induction false} OneDigitValues(k: nat)
    ensures DigitValues(Repeat('1', k), 2) == Repeat<nat>(1, k)
  {
    if k > 0 {
      OneDigitValues(k - 1);
      assert Repeat('1', k)[1..] == Repeat('1', k - 1);
    }
  }

  /** `k` binary zeros are worth 0. */
  lemma ParseZeros(k: nat)
    ensures ParseBase(Repeat('0', k), 2) == 0
  {
    ParseLeadingZeros("", k, 2);
    assert Repeat('0', k) + "" == Repeat('0', k);
  }

  /** The leading `fixed` binary digits of a 16-bit value are worth the value
      shifted right by the other `16 - fixed` bits. */
  lemma LeadingBits(v: nat, fixed: nat)
    requires v < GroupLimit && fixed < GroupBits
    ensures ParseBase(ToBaseWidth(v, 2, GroupBits)[..fixed], 2) == v / Pow(2, GroupBits - fixed)
  {
    BinaryOfGroup(v);
    ParsePrefix(ToBaseWidth(v, 2, GroupBits), fixed, GroupBits - fixed, 2);
  }

  /** The string computation of `calcSubnet` equals the bit arithmetic: the
      boundary group of the minimum is the group with its `16 - fixed` low
      bits cleared, that of the maximum the group with those bits set. */
  lemma BoundaryGroupsMask(segment: string, fixed: nat)
    requires fixed < GroupBits && ParseBase(segment, 16) < GroupLimit
    ensures BoundaryGroups(segment, fixed)
         == (Hex4(ClearLow(ParseBase(segment, 16), GroupBits - fixed)),
             Hex4(SetLow(ParseBase(segment, 16), GroupBits - fixed)))
  {
    var v := ParseBase(segment, 16);
    BinaryOfGroup(v);
    PaddedPrefixBits(v, fixed);
  }

  /** Padding the leading `fixed` bits with zeros or ones on the right. */
  lemma PaddedPrefixBits(v: nat, fixed: nat)
    requires v < GroupLimit && fixed < GroupBits
    ensures ParseBase(PadRight(ToBaseWidth(v, 2, GroupBits)[..fixed], GroupBits, '0'), 2) == ClearLow(v, GroupBits - fixed)
    ensures ParseBase(PadRight(ToBaseWidth(v, 2, GroupBits)[..fixed], GroupBits, '1'), 2) == SetLow(v, GroupBits - fixed)
  {
    var k := GroupBits - fixed;
    var kept := ToBaseWidth(v, 2, GroupBits)[..fixed];
    LeadingBits(v, fixed);
    ParseZeros(k);
    ParseOnes(k);
    PadWithBits(kept, k, '0', v / Pow(2, k), 0, ClearLow(v, k));
    PadWithBits(kept, k, '1', v / Pow(2, k), Pow(2, k) - 1, SetLow(v, k));
  }

  /** Right-padding binary digits to a full group appends `k` copies of the
      fill digit. */
  lemma PadWithBits(kept: string, k: nat, fill: char, high: nat, low: int, padded: nat)
    requires |kept| + k == GroupBits && (fill == '0' || fill == '1')
    requires ParseBase(kept, 2) == high && ParseBase(Repeat(fill, k), 2) == low
    requires padded == high * Pow(2, k) + low
    ensures ParseBase(PadRight(kept, GroupBits, fill), 2) == padded
  {
    assert PadRight(kept, GroupBits, fill) == kept + Repeat(fill, k);
    ParseConcat(kept, Repeat(fill, k), 2);
  }

  // ---------------------------------------------------------------------------
  // The minimum and maximum addresses

  /** For a prefix below 128: eight groups each; groups before the boundary
      group are copied, groups after it are "0000" in the minimum and "ffff"
      in the maximum. */
  lemma RangeShape(segments: seq<string>, p: nat)
    requires |segments| == GroupCount && p < 128
    ensures |MinGroups(segments, p)| == GroupCount && |MaxGroups(segments, p)| == GroupCount
    ensures forall i :: 0 <= i < p / GroupBits ==>
      MinGroups(segments, p)[i] == segments[i] && MaxGroups(segments, p)[i] == segments[i]
    ensures forall i :: p / GroupBits < i < GroupCount ==>
      MinGroups(segments, p)[i] == ZeroGroup && MaxGroups(segments, p)[i] == FullGroup
  {
  }

  /** The boundary group of the minimum is the group with its bits below the
      prefix cleared, that of the maximum the group with those bits set. */
  lemma RangeBoundaryGroup(segments: seq<string>, p: nat)
    requires |segments| == GroupCount && p < 128
    requires ParseBase(segments[p / GroupBits], 16) < GroupLimit
    ensures MinGroups(segments, p)[p / GroupBits]
         == Hex4(ClearLow(ParseBase(segments[p / GroupBits], 16), GroupBits - p % GroupBits))
    ensures MaxGroups(segments, p)[p / GroupBits]
         == Hex4(SetLow(ParseBase(segments[p / GroupBits], 16), GroupBits - p % GroupBits))
  {
    var g, m := p / GroupBits, p % GroupBits;
    MinGroupsShape(segments, p);
    MaxGroupsShape(segments, p);
    BoundaryGroupsMask(segments[g], m);
    ElementAfter(segments[..g], BoundaryGroups(segments[g], m).0, Repeat(ZeroGroup, 7 - g), g);
    ElementAfter(segments[..g], BoundaryGroups(segments[g], m).1, Repeat(FullGroup, 7 - g), g);
  }

  /** The element that follows a prefix of length `n`. */
  lemma ElementAfter<T>(pre: seq<T>, x: T, post: seq<T>, n: nat)
    requires n == |pre|
    ensures (pre + [x] + post)[n] == x
  {
  }

  /** The missing ninth group reads as "" and gives "0000" and "ffff". */
  lemma BoundaryPastLastGroup()
    ensures BoundaryGroups("", 0) == (ZeroGroup, FullGroup)
  {
    assert ParseBase("", 16) == 0;
    BoundaryGroupsMask("", 0);
    WholeGroupMasks();
    ZeroGroupHex();
    FullGroupHex();
  }

  lemma ZeroGroupHex()
    ensures Hex4(0) == ZeroGroup
  {
    ZeroGroupValue();
    Hex4OfParse(ZeroGroup);
  }

  lemma FullGroupHex()
    ensures Hex4(0xffff) == FullGroup
  {
    FullGroupValue();
    Hex4OfParse(FullGroup);
  }

  /** With no fixed bits the minimum group is 0 and the maximum 0xffff. */
  lemma WholeGroupMasks()
    ensures ClearLow(0, GroupBits) == 0 && SetLow(0, GroupBits) == 0xffff
  {
    PowGroup();
  }

  /** With prefix length 128 the boundary index is 8, past the last group:
      the code appends a ninth group, "0000" to the minimum and "ffff" to the
      maximum, instead of returning the address itself. */
  lemma Prefix128AppendsGroup(segments: seq<string>)
    requires |segments| == GroupCount
    ensures MinGroups(segments, 128) == segments + [ZeroGroup]
    ensures MaxGroups(segments, 128) == segments + [FullGroup]
    ensures Hosts(128) == 1
  {
    BoundaryPastLastGroup();
    assert segments[..8] == segments;
  }

  lemma ZeroGroupValue()
    ensures ParseBase(ZeroGroup, 16) == 0
  {
    ParseLeadingZeros("", 4, 16);
    assert ZeroGroup == Repeat('0', 4) + "";
  }

  lemma FullGroupValue()
    ensures ParseBase(FullGroup, 16) == 0xffff
  {
    Hex4OfParse(FullGroup);
  }

  lemma EvalAround(pre: seq<nat>, x: nat, post: seq<nat>, n: nat, b: nat)
    requires n == |post|
    ensures Eval(pre + [x] + post, b) == (Eval(pre, b) * b + x) * Pow(b, n) + Eval(post, b)
  {
    EvalAppend(pre, x, b);
    EvalShift(pre + [x], post, n, b, Eval(pre, b) * b + x);
  }

  /** `EvalConcat` with the value of the leading digits given as `e`. */
  lemma EvalShift(xs: seq<nat>, ys: seq<nat>, n: nat, b: nat, e: nat)
    requires n == |ys| && e == Eval(xs, b)
    ensures Eval(xs + ys, b) == e * Pow(b, n) + Eval(ys, b)
  {
    EvalConcat(xs, ys, b);
  }

  /** 2^(128 - p) splits at the boundary group into the free bits of that
      group and the groups after it. */
  lemma HostsSplit(p: nat)
    requires p < 128
    ensures Hosts(p) == Pow(2, GroupBits - p % GroupBits) * Pow(GroupLimit, 7 - p / GroupBits)
  {
    var g, m := p / GroupBits, p % GroupBits;
    assert 128 - p == (GroupBits - m) + GroupBits * (7 - g);
    PowAdd(2, GroupBits - m, GroupBits * (7 - g));
    PowMul(2, GroupBits, 7 - g);
    PowGroup();
  }

  lemma MinGroupValues(segments: seq<string>, p: nat)
    requires |segments| == GroupCount && p < 128 && GroupsFit(segments)
    ensures GroupValues(MinGroups(segments, p))
         == GroupValues(segments)[..p / GroupBits]
          + [ClearLow(GroupValues(segments)[p / GroupBits], GroupBits - p % GroupBits)]
          + Repeat<nat>(0, 7 - p / GroupBits)
  {
    var g, m := p / GroupBits, p % GroupBits;
    var vs := GroupValues(segments);
    var boundary := BoundaryGroups(segments[g], m).0;
    MinGroupsShape(segments, p);
    GroupValuesAround(segments, g, boundary, ZeroGroup, 7 - g);
    BoundaryGroupsMask(segments[g], m);
    MaskedGroupValues(vs[g], GroupBits - m);
    ZeroGroupValue();
    ReplaceAround(vs, g, ParseBase(boundary, 16), ClearLow(vs[g], GroupBits - m), ParseBase(ZeroGroup, 16), 0, 7 - g);
  }

  lemma MinGroupsShape(segments: seq<string>, p: nat)
    requires |segments| == GroupCount && p < 128
    ensures MinGroups(segments, p)
         == segments[..p / GroupBits] + [BoundaryGroups(segments[p / GroupBits], p % GroupBits).0] + Repeat(ZeroGroup, 7 - p / GroupBits)
  {
  }

  lemma MaxGroupValues(segments: seq<string>, p: nat)
    requires |segments| == GroupCount && p < 128 && GroupsFit(segments)
    ensures GroupValues(MaxGroups(segments, p))
         == GroupValues(segments)[..p / GroupBits]
          + [SetLow(GroupValues(segments)[p / GroupBits], GroupBits - p % GroupBits)]
          + Repeat<nat>(GroupLimit - 1, 7 - p / GroupBits)
  {
    var g, m := p / GroupBits, p % GroupBits;
    var vs := GroupValues(segments);
    var boundary := BoundaryGroups(segments[g], m).1;
    MaxGroupsShape(segments, p);
    GroupValuesAround(segments, g, boundary, FullGroup, 7 - g);
    BoundaryGroupsMask(segments[g], m);
    MaskedGroupValues(vs[g], GroupBits - m);
    FullGroupValue();
    ReplaceAround(vs, g, ParseBase(boundary, 16), SetLow(vs[g], GroupBits - m), ParseBase(FullGroup, 16), GroupLimit - 1, 7 - g);
  }

  lemma MaxGroupsShape(segments: seq<string>, p: nat)
    requires |segments| == GroupCount && p < 128
    ensures MaxGroups(segments, p)
         == segments[..p / GroupBits] + [BoundaryGroups(segments[p / GroupBits], p % GroupBits).1] + Repeat(FullGroup, 7 - p / GroupBits)
  {
  }

  /** The masked group written as four hex digits reads back as itself. */
  lemma MaskedGroupValues(v: nat, k: nat)
    requires v < GroupLimit && k <= GroupBits
    ensures ParseBase(Hex4(ClearLow(v, k)), 16) == ClearLow(v, k)
    ensures ParseBase(Hex4(SetLow(v, k)), 16) == SetLow(v, k)
  {
    MaskFacts(v, k);
    Hex4RoundTrip(ClearLow(v, k));
    Hex4RoundTrip(SetLow(v, k));
  }

  lemma ReplaceAround(vs: seq<nat>, g: nat, a: nat, b: nat, c: nat, d: nat, n: nat)
    requires g <= |vs| && a == b && c == d
    ensures vs[..g] + [a] + Repeat(c, n) == vs[..g] + [b] + Repeat(d, n)
  {
  }

  /** The values of leading groups, one boundary group and `n` copies of a
      filler group. */
  lemma GroupValuesAround(segments: seq<string>, g: nat, boundary: string, filler: string, n: nat)
    requires g <= |segments|
    ensures GroupValues(segments[..g] + [boundary] + Repeat(filler, n))
         == GroupValues(segments)[..g] + [ParseBase(boundary, 16)] + Repeat<nat>(ParseBase(filler, 16), n)
  {
    GroupValuesConcat(segments[..g] + [boundary], Repeat(filler, n));
    GroupValuesConcat(segments[..g], [boundary]);
    GroupValuesPrefix(segments, g);
    GroupValuesRepeat(filler, n);
  }

  lemma GroupValuesConcat(a: seq<string>, b: seq<string>)
    ensures GroupValues(a + b) == GroupValues(a) + GroupValues(b)
  {
  }

  lemma GroupValuesPrefix(segments: seq<string>, g: nat)
    requires g <= |segments|
    ensures GroupValues(segments[..g]) == GroupValues(segments)[..g]
  {
  }

  lemma GroupValuesRepeat(filler: string, n: nat)
    ensures GroupValues(Repeat(filler, n)) == Repeat<nat>(ParseBase(filler, 16), n)
  {
  }

  /** The minimum and maximum bound the CIDR block of the address: the
      minimum is the address rounded down to a multiple of 2^(128 - p), and
      the maximum lies 2^(128 - p) - 1 above it, so the block holds exactly
      `Hosts(p)` addresses, the given one among them. */
  lemma RangeIsAlignedBlock(segments: seq<string>, p: nat)
    requires |segments| == GroupCount && p < 128 && GroupsFit(segments)
    ensures AddressValue(MinGroups(segments, p)) == (AddressValue(segments) / Hosts(p)) * Hosts(p)
    ensures AddressValue(MaxGroups(segments, p)) == AddressValue(MinGroups(segments, p)) + Hosts(p) - 1
    ensures AddressValue(MinGroups(segments, p)) <= AddressValue(segments) <= AddressValue(MaxGroups(segments, p))
  {
    RangeMinimum(segments, p);
    RangeMaximum(segments, p);
    assert Hosts(p) >= 1;
    DivMod(AddressValue(segments), Hosts(p));
  }

  lemma RangeMinimum(segments: seq<string>, p: nat)
    requires |segments| == GroupCount && p < 128 && GroupsFit(segments)
    ensures AddressValue(MinGroups(segments, p)) == (AddressValue(segments) / Hosts(p)) * Hosts(p)
  {
    MinGroupValues(segments, p);
    GroupValuesFit(segments);
    MinimumOfValues(GroupValues(segments), p);
  }

  lemma MinimumOfValues(vs: seq<nat>, p: nat)
    requires |vs| == GroupCount && p < 128 && AllBelow(vs, GroupLimit)
    ensures Eval(vs[..p / GroupBits] + [ClearLow(vs[p / GroupBits], GroupBits - p % GroupBits)] + Repeat<nat>(0, 7 - p / GroupBits), GroupLimit)
         == (Eval(vs, GroupLimit) / Hosts(p)) * Hosts(p)
  {
    var g, m := p / GroupBits, p % GroupBits;
    RangeFactors(p);
    AlignedMinAt(vs, g, 7 - g, GroupBits - m, Pow(2, m), GroupLimit, Hosts(p));
  }

  lemma RangeMaximum(segments: seq<string>, p: nat)
    requires |segments| == GroupCount && p < 128 && GroupsFit(segments)
    ensures AddressValue(MaxGroups(segments, p)) == (AddressValue(segments) / Hosts(p)) * Hosts(p) + Hosts(p) - 1
  {
    MaxGroupValues(segments, p);
    GroupValuesFit(segments);
    MaximumOfValues(GroupValues(segments), p);
  }

  lemma MaximumOfValues(vs: seq<nat>, p: nat)
    requires |vs| == GroupCount && p < 128 && AllBelow(vs, GroupLimit)
    ensures Eval(vs[..p / GroupBits] + [SetLow(vs[p / GroupBits], GroupBits - p % GroupBits)] + Repeat<nat>(GroupLimit - 1, 7 - p / GroupBits), GroupLimit)
         == (Eval(vs, GroupLimit) / Hosts(p)) * Hosts(p) + Hosts(p) - 1
  {
    var g, m := p / GroupBits, p % GroupBits;
    RangeFactors(p);
    AlignedMaxAt(vs, g, 7 - g, GroupBits - m, Pow(2, m), GroupLimit, GroupLimit - 1, Hosts(p));
  }

  lemma GroupValuesFit(segments: seq<string>)
    requires GroupsFit(segments)
    ensures AllBelow(GroupValues(segments), GroupLimit)
  {
  }

  /** The host count and the group limit split at the boundary bit. */
  lemma RangeFactors(p: nat)
    requires p < 128
    ensures GroupLimit == Pow(2, p % GroupBits) * Pow(2, GroupBits - p % GroupBits)
    ensures Hosts(p) == Pow(2, GroupBits - p % GroupBits) * Pow(GroupLimit, 7 - p / GroupBits)
  {
    HostsSplit(p);
    PowAdd(2, p % GroupBits, GroupBits - p % GroupBits);
    PowGroup();
  }

  /** `AlignedMin` with the digit sequence taken apart at position `g`. */
  lemma AlignedMinAt(vs: seq<nat>, g: nat, n: nat, k: nat, mm: nat, b: nat, hosts: nat)
    requires g < |vs| && n == |vs| - 1 - g && AllBelow(vs, b) && b >= 1
    requires b == mm * Pow(2, k) && hosts == Pow(2, k) * Pow(b, n)
    ensures Eval(vs[..g] + [ClearLow(vs[g], k)] + Repeat<nat>(0, n), b) == (Eval(vs, b) / hosts) * hosts
  {
    assert vs == vs[..g] + [vs[g]] + vs[g + 1..];
    assert AllBelow(vs[g + 1..], b);
    AlignedMin(vs[..g], vs[g], vs[g + 1..], n, k, mm, b, hosts);
  }

  /** `AlignedMax` with the digit sequence taken apart at position `g`. */
  lemma AlignedMaxAt(vs: seq<nat>, g: nat, n: nat, k: nat, mm: nat, b: nat, top: nat, hosts: nat)
    requires g < |vs| && n == |vs| - 1 - g && AllBelow(vs, b) && top + 1 == b
    requires b == mm * Pow(2, k) && hosts == Pow(2, k) * Pow(b, n)
    ensures Eval(vs[..g] + [SetLow(vs[g], k)] + Repeat<nat>(top, n), b) == (Eval(vs, b) / hosts) * hosts + hosts - 1
  {
    assert vs == vs[..g] + [vs[g]] + vs[g + 1..];
    assert AllBelow(vs[g + 1..], b);
    AlignedMax(vs[..g], vs[g], vs[g + 1..], n, k, mm, b, top, hosts);
  }

  /** Digit sequences around one digit `v`: clearing the low `k` bits of `v`
      and zeroing the tail rounds the number down to a multiple of
      `hosts`. */
  lemma AlignedMin(pre: seq<nat>, v: nat, post: seq<nat>, n: nat, k: nat, mm: nat, b: nat, hosts: nat)
    requires n == |post| && AllBelow(post, b) && b >= 1 && b == mm * Pow(2, k) && hosts == Pow(2, k) * Pow(b, n)
    ensures Eval(pre + [ClearLow(v, k)] + Repeat<nat>(0, n), b) == (Eval(pre + [v] + post, b) / hosts) * hosts
  {
    EvalAround(pre, v, post, n, b);
    EvalBound(post, b);
    EvalZeroTail(pre, ClearLow(v, k), n, b);
    BlockFloor(Eval(pre, b), b, mm, Pow(2, k), Pow(b, n), v, Eval(post, b), hosts, ClearLow(v, k),
      Eval(pre + [v] + post, b), Eval(pre + [ClearLow(v, k)] + Repeat<nat>(0, n), b));
  }

  /** Setting the low `k` bits of `v` and filling the tail with top digits
      gives the last number of the same block. */
  lemma AlignedMax(pre: seq<nat>, v: nat, post: seq<nat>, n: nat, k: nat, mm: nat, b: nat, top: nat, hosts: nat)
    requires n == |post| && AllBelow(post, b) && top + 1 == b && b == mm * Pow(2, k) && hosts == Pow(2, k) * Pow(b, n)
    ensures Eval(pre + [SetLow(v, k)] + Repeat<nat>(top, n), b) == (Eval(pre + [v] + post, b) / hosts) * hosts + hosts - 1
  {
    AlignedMin(pre, v, post, n, k, mm, b, hosts);
    MaxAboveMin(pre, v, n, k, b, top);
  }

  /** The maximum lies `2^k * b^n - 1` above the minimum. */
  lemma MaxAboveMin(pre: seq<nat>, v: nat, n: nat, k: nat, b: nat, top: nat)
    requires top + 1 == b
    ensures Eval(pre + [SetLow(v, k)] + Repeat<nat>(top, n), b)
         == Eval(pre + [ClearLow(v, k)] + Repeat<nat>(0, n), b) + Pow(2, k) * Pow(b, n) - 1
  {
    EvalZeroTail(pre, ClearLow(v, k), n, b);
    EvalMaxTail(pre, SetLow(v, k), n, b, top);
    FillArith(Eval(pre, b) * b + ClearLow(v, k), Pow(2, k), Pow(b, n));
  }

  lemma FillArith(x: nat, kk: nat, ll: nat)
    requires kk >= 1 && ll >= 1
    ensures (x + kk - 1) * ll + (ll - 1) == x * ll + kk * ll - 1
  {
  }

  lemma EvalZeroTail(pre: seq<nat>, c: nat, n: nat, b: nat)
    ensures Eval(pre + [c] + Repeat<nat>(0, n), b) == (Eval(pre, b) * b + c) * Pow(b, n)
  {
    EvalAround(pre, c, Repeat<nat>(0, n), n, b);
    EvalZeros(n, b);
  }

  lemma EvalMaxTail(pre: seq<nat>, c: nat, n: nat, b: nat, top: nat)
    requires top + 1 == b
    ensures Eval(pre + [c] + Repeat<nat>(top, n), b) == (Eval(pre, b) * b + c) * Pow(b, n) + (Pow(b, n) - 1)
  {
    EvalAround(pre, c, Repeat<nat>(top, n), n, b);
    EvalMaxDigits(n, b);
  }

  /** A number `(e * base + v) * ll + rest` with `rest < ll` rounded down to
      a multiple of `hosts == kk * ll` keeps `e` and the high part of `v`. */
  lemma BlockFloor(e: nat, base: nat, mm: nat, kk: nat, ll: nat, v: nat, rest: nat, hosts: nat, c: nat, whole: nat, floor: nat)
    requires kk >= 1 && ll >= 1 && rest < ll && base == mm * kk && hosts == kk * ll && c == (v / kk) * kk
    requires whole == (e * base + v) * ll + rest && floor == (e * base + c) * ll
    ensures floor == (whole / hosts) * hosts
  {
    BlockQuotient(e, base, mm, kk, ll, v, rest, hosts);
    var q := e * mm + v / kk;
    assert e * base + c == q * kk;
  }

  lemma BlockQuotient(e: nat, base: nat, mm: nat, kk: nat, ll: nat, v: nat, rest: nat, hosts: nat)
    requires kk >= 1 && ll >= 1 && rest < ll && base == mm * kk && hosts == kk * ll
    ensures ((e * base + v) * ll + rest) / hosts == e * mm + v / kk
  {
    var q, r := e * mm + v / kk, v % kk;
    DivMod(v, kk);
    assert e * base + v == q * kk + r;
    LowPartBound(r, kk, ll, rest);
    calc {
      (e * base + v) * ll + rest;
      (q * kk + r) * ll + rest;
      q * (kk * ll) + (r * ll + rest);
    }
    DivModUnique((e * base + v) * ll + rest, hosts, q, r * ll + rest);
  }

  lemma LowPartBound(r: nat, kk: nat, ll: nat, rest: nat)
    requires r < kk && rest < ll
    ensures r * ll + rest < kk * ll
  {
    MulMonotone(r + 1, kk, ll);
  }
}
