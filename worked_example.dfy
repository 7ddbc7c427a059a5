/** One query followed through `calc`: the address `2001:db8::1` with prefix
    length 64. */
module WorkedExample {
  import opened Outcomes
  import opened Positional
  import opened PhpStrings
  import opened BaseConvert
  import opened Segments
  import opened Subnet
  import opened Calculation

  /** The groups `2001:db8::1` normalizes to. */
  const ExampleGroups: seq<string> := ["2001", "0db8", "0000", "0000", "0000", "0000", "0000", "0001"]

  /** `2001:db8::1/64` is accepted; the address is stored as the groups
      2001:0db8:0000:0000:0000:0000:0000:0001, and the range runs from
      2001:0db8:0000:0000:0000:0000:0000:0000 to
      2001:0db8:0000:0000:ffff:ffff:ffff:ffff and holds 2^64 addresses. */
  lemma DocumentationQuery()
    ensures Calculate("2001:db8::1/64").0 == Returned(Computed)
    ensures Calculate("2001:db8::1/64").1.segments == ExampleGroups
    ensures Calculate("2001:db8::1/64").1.networkRange
         == Some(NetworkRange(Join(["2001", "0db8", "0000", "0000", "0000", "0000", "0000", "0000"], ':'),
                              Join(["2001", "0db8", "0000", "0000", "ffff", "ffff", "ffff", "ffff"], ':'),
                              NumberFormat(Pow(2, 64))))
  {
    var ip, prefix := "2001:db8::1", "64";
    QueryStepOfParts(ip, prefix);
    assert ip + "/" + prefix == "2001:db8::1/64";
    ExampleAddress();
    ExamplePrefix();
    ExampleBounds();
  }

  lemma ExampleAddress()
    ensures AddressStep("2001:db8::1") == Returned(Valid(ExampleGroups))
  {
    ExampleSplit();
    ExampleExpand();
    ExamplePadding();
  }

  /** `explode` gives an empty piece between the two colons. */
  lemma ExampleSplit()
    ensures Split("2001:db8::1", ':') == ["2001", "db8", "", "1"]
  {
    SplitFour("2001", "db8", "", "1");
    assert "2001" + [':'] + "db8" + [':'] + "" + [':'] + "1" == "2001:db8::1";
  }

  /** Four colon-free pieces joined by colons split back into themselves. */
  lemma SplitFour(a: string, b: string, c: string, e: string)
    requires ':' !in a && ':' !in b && ':' !in c && ':' !in e
    ensures Split(a + [':'] + b + [':'] + c + [':'] + e, ':') == [a, b, c, e]
  {
    var tail := c + [':'] + e;
    var rest := b + [':'] + tail;
    SplitWhole(e, ':');
    SplitAfterPiece(c, e, ':');
    SplitAfterPiece(b, tail, ':');
    SplitAfterPiece(a, rest, ':');
    assert a + [':'] + b + [':'] + c + [':'] + e == a + [':'] + rest;
  }

  /** Four pieces: the empty one becomes five zero groups. */
  lemma ExampleExpand()
    ensures Expand(["2001", "db8", "", "1"])
         == Returned(["2001", "db8", ZeroGroup, ZeroGroup, ZeroGroup, ZeroGroup, ZeroGroup, "1"])
  {
    var pre, post := ["2001", "db8"], ["1"];
    ExpandSingleCompression(pre, "", post);
    assert ["2001", "db8", "", "1"] == pre + [""] + post;
    assert Repeat(ZeroGroup, 5) == [ZeroGroup, ZeroGroup, ZeroGroup, ZeroGroup, ZeroGroup];
    assert pre + Repeat(ZeroGroup, 5) + post
        == ["2001", "db8", ZeroGroup, ZeroGroup, ZeroGroup, ZeroGroup, ZeroGroup, "1"];
  }

  lemma ExamplePadding()
    ensures PadAll(["2001", "db8", ZeroGroup, ZeroGroup, ZeroGroup, ZeroGroup, ZeroGroup, "1"]) == ExampleGroups
  {
    ShortGroups();
    PadEight("2001", "db8", ZeroGroup, ZeroGroup, ZeroGroup, ZeroGroup, ZeroGroup, "1",
             "2001", "0db8", ZeroGroup, ZeroGroup, ZeroGroup, ZeroGroup, ZeroGroup, "0001");
  }

  /** Eight groups are padded one by one. */
  lemma PadEight(a: string, b: string, c: string, d: string, e: string, f: string, g: string, h: string,
                 a': string, b': string, c': string, d': string, e': string, f': string, g': string, h': string)
    requires PadGroup(a) == a' && PadGroup(b) == b' && PadGroup(c) == c' && PadGroup(d) == d'
    requires PadGroup(e) == e' && PadGroup(f) == f' && PadGroup(g) == g' && PadGroup(h) == h'
    ensures PadAll([a, b, c, d, e, f, g, h]) == [a', b', c', d', e', f', g', h']
  {
  }

  lemma ShortGroups()
    ensures PadGroup("2001") == "2001" && PadGroup(ZeroGroup) == ZeroGroup
    ensures PadGroup("db8") == "0db8" && PadGroup("1") == "0001"
  {
    assert Repeat('0', 1) == "0";
    assert Repeat('0', 3) == "000";
  }

  lemma ExamplePrefix()
    ensures PrefixStep("64") == Valid(64)
  {
    ParseAppend("6", '4', 10);
    ParseAppend("", '6', 10);
    assert "64" == "6" + ['4'] && "6" == "" + ['6'];
  }

  lemma ExampleBounds()
    ensures MinGroups(ExampleGroups, 64) == ["2001", "0db8", "0000", "0000", "0000", "0000", "0000", "0000"]
    ensures MaxGroups(ExampleGroups, 64) == ["2001", "0db8", "0000", "0000", "ffff", "ffff", "ffff", "ffff"]
  {
    ExampleMinimum();
    ExampleMaximum();
  }

  lemma ExampleMinimum()
    ensures MinGroups(ExampleGroups, 64) == ["2001", "0db8", "0000", "0000", "0000", "0000", "0000", "0000"]
  {
    WholeBoundaryGroup();
    MinAtGroupBorder(ExampleGroups);
    ExampleHead();
  }

  lemma ExampleMaximum()
    ensures MaxGroups(ExampleGroups, 64) == ["2001", "0db8", "0000", "0000", "ffff", "ffff", "ffff", "ffff"]
  {
    WholeBoundaryGroup();
    MaxAtGroupBorder(ExampleGroups);
    ExampleHead();
  }

  /** Prefix 64 with a zero fifth group: the minimum keeps four groups and
      fills the rest with zeros. */
  lemma MinAtGroupBorder(segments: seq<string>)
    requires |segments| == GroupCount && BoundaryGroups(segments[4], 0).0 == ZeroGroup
    ensures MinGroups(segments, 64) == segments[..4] + [ZeroGroup, ZeroGroup, ZeroGroup, ZeroGroup]
  {
    MinGroupsShape(segments, 64);
    assert Repeat(ZeroGroup, 3) == [ZeroGroup, ZeroGroup, ZeroGroup];
  }

  /** Prefix 64 with a zero fifth group: the maximum keeps four groups and
      fills the rest with "ffff". */
  lemma MaxAtGroupBorder(segments: seq<string>)
    requires |segments| == GroupCount && BoundaryGroups(segments[4], 0).1 == FullGroup
    ensures MaxGroups(segments, 64) == segments[..4] + [FullGroup, FullGroup, FullGroup, FullGroup]
  {
    MaxGroupsShape(segments, 64);
    assert Repeat(FullGroup, 3) == [FullGroup, FullGroup, FullGroup];
  }

  /** Prefix length 64 ends at a group border: the fifth group becomes
      "0000" in the minimum and "ffff" in the maximum. */
  lemma WholeBoundaryGroup()
    ensures ExampleGroups[64 / GroupBits] == ZeroGroup && 64 % GroupBits == 0
    ensures BoundaryGroups(ZeroGroup, 0) == (ZeroGroup, FullGroup)
  {
    assert ExampleGroups[4] == ZeroGroup;
    ZeroGroupBoundary();
  }

  lemma ZeroGroupBoundary()
    ensures BoundaryGroups(ZeroGroup, 0) == (ZeroGroup, FullGroup)
  {
    ZeroGroupValue();
    ZeroGroupHex();
    FullGroupHex();
    ZeroBoundary(ZeroGroup, FullGroup);
  }

  /** A zero group with no fixed bits spans 0 to 0xffff. */
  lemma ZeroBoundary(zero: string, full: string)
    requires ParseBase(zero, 16) == 0 && Hex4(0) == zero && Hex4(0xffff) == full
    ensures BoundaryGroups(zero, 0) == (zero, full)
  {
    BoundaryGroupsMask(zero, 0);
    WholeGroupMasks();
  }

  lemma ExampleHead()
    ensures ExampleGroups[..4] == ["2001", "0db8", "0000", "0000"]
  {
  }
}
