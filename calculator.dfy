/** The `IPv6Calculator` class: its properties are fields that the methods
    update in place, and every method is proved to do what the functions of
    modules `Calculation`, `Segments` and `ErrorCodes` describe. */
module Calculator {
  import opened Outcomes
  import opened Positional
  import opened PhpStrings
  import opened BaseConvert
  import opened Segments
  import opened Subnet
  import opened ErrorCodes
  import opened Calculation

  /** Thrown by `calcSubnet` when the prefix is not numeric. */
  const PrefixUnavailable: string := "Prefix is not available!"

  /** Two texts put in front one after the other. */
  lemma PrependTwice(a: string, b: string, f: Flow<string>)
    ensures PrependTo(a, PrependTo(b, f)) == PrependTo(a + b, f)
  {
    if f.Returned? {
      assert a + (b + f.value) == (a + b) + f.value;
    }
  }

  /** `result` is `groups` with `boundary` at index `g` and `filler` at
      the indices after it up to `i`. */
  predicate FilledUpTo(result: seq<string>, groups: seq<string>, g: nat, boundary: string, filler: string, i: nat) {
    |result| == |groups|
    && forall j :: 0 <= j < |result| ==>
         result[j] == (if j < g then groups[j] else if j == g then boundary else if j < i then filler else groups[j])
  }

  /** The `for` loop of `calcSubnet` with the two assignments before it:
      copies of the groups with the boundary groups written at index `group`
      (appended when `group` is 8, past the last group) and every later
      group set to "0000" in the minimum and to "ffff" in the maximum. */
  method FillBounds(groups: seq<string>, group: nat, low: string, high: string)
    returns (mins: seq<string>, maxs: seq<string>)
    requires |groups| == GroupCount && group <= GroupCount
    ensures group < GroupCount ==>
      mins == groups[..group] + [low] + Repeat(ZeroGroup, 7 - group)
      && maxs == groups[..group] + [high] + Repeat(FullGroup, 7 - group)
    ensures group == GroupCount ==> mins == groups + [low] && maxs == groups + [high]
  {
    mins, maxs := groups, groups;
    if group < |mins| {
      mins, maxs := mins[group := low], maxs[group := high];
    } else {
      mins, maxs := mins + [low], maxs + [high];
    }
    var i := group + 1;
    while i < GroupCount
      invariant group < GroupCount ==> group + 1 <= i <= GroupCount
      invariant group < GroupCount ==>
        FilledUpTo(mins, groups, group, low, ZeroGroup, i) && FilledUpTo(maxs, groups, group, high, FullGroup, i)
      invariant group == GroupCount ==> i == group + 1 && mins == groups + [low] && maxs == groups + [high]
    {
      mins, maxs := mins[i := ZeroGroup], maxs[i := FullGroup];
      i := i + 1;
    }
    if group < GroupCount {
      FilledGroups(groups, group, low, ZeroGroup, mins);
      FilledGroups(groups, group, high, FullGroup, maxs);
    }
  }

  /** The group lists `FillBounds` builds from the boundary groups of
      prefix length `p` give the entries of `Range`. */
  lemma RangeOfBounds(segments: seq<string>, p: nat, low: string, high: string, mins: seq<string>, maxs: seq<string>)
    requires |segments| == GroupCount && p <= MaxPrefix
    requires (low, high) == BoundaryGroups(if p / GroupBits < GroupCount then segments[p / GroupBits] else "", p % GroupBits)
    requires p / GroupBits < GroupCount ==>
      mins == segments[..p / GroupBits] + [low] + Repeat(ZeroGroup, 7 - p / GroupBits)
      && maxs == segments[..p / GroupBits] + [high] + Repeat(FullGroup, 7 - p / GroupBits)
    requires p / GroupBits == GroupCount ==> mins == segments + [low] && maxs == segments + [high]
    ensures NetworkRange(Join(mins, ':'), Join(maxs, ':'), NumberFormat(Hosts(p))) == Range(segments, p)
  {
    if p / GroupBits < GroupCount {
      MinGroupsShape(segments, p);
      MaxGroupsShape(segments, p);
    } else {
      assert p == MaxPrefix;
      Prefix128AppendsGroup(segments);
      BoundaryPastLastGroup();
      assert mins == MinGroups(segments, p) && maxs == MaxGroups(segments, p);
    }
  }

  /** A list filled up to the end is the groups before `g`, the boundary,
      and filler. */
  lemma FilledGroups(groups: seq<string>, g: nat, boundary: string, filler: string, result: seq<string>)
    requires g < |groups| && FilledUpTo(result, groups, g, boundary, filler, |groups|)
    ensures result == groups[..g] + [boundary] + Repeat(filler, |groups| - 1 - g)
  {
    var shaped := groups[..g] + [boundary] + Repeat(filler, |groups| - 1 - g);
    assert |shaped| == |result|;
    forall j | 0 <= j < |result|
      ensures result[j] == shaped[j]
    {
      if j > g {
        assert shaped[j] == Repeat(filler, |groups| - 1 - g)[j - g - 1];
      }
    }
  }

  class IPv6Calculator {
    var errors: seq<int>
    var segments: seq<string>
    var ip: Option<string>
    var prefix: Option<string>
    var networkRange: Option<NetworkRange>

    /** The properties as one value. */
    function Snapshot(): State
      reads this
    {
      State(errors, segments, ip, prefix, networkRange)
    }

    constructor ()
      ensures Snapshot() == Initial()
    {
      errors, segments, ip, prefix, networkRange := [], [], None, None, None;
    }

    /** `reset()`: every property back to its initial value. */
    method Reset()
      modifies this
      ensures Snapshot() == Initial()
    {
      errors, segments, ip, prefix, networkRange := [], [], None, None, None;
    }

    /** `calc($query)`: the returned value (or exception) and the new state
        are those of `Calculate`. */
    method Calc(query: string) returns (r: Flow<Answer>)
      modifies this
      ensures (r, Snapshot()) == Calculate(query)
    {
      Reset();
      var queried := IsValidQuery(query);
      if !queried {
        assert errors == [] + [QueryStep(query).code] == [QueryStep(query).code];
        return Returned(Failed(QueryInvalid));
      }
      ghost var address, text := QueryStep(query).value.0, QueryStep(query).value.1;
      assert errors == [] && ip == Some(address) && prefix == Some(text) && networkRange == None;
      var addressed := IsValidAddress();
      if addressed.Thrown? {
        return Thrown(addressed.message);
      }
      if !addressed.value {
        assert errors == [] + [AddressStep(address).value.code] == [AddressStep(address).value.code];
        errors := errors + [AddressInvalid];
        assert Calculate(query).0 == Returned(Failed(AddressInvalid));
        assert Calculate(query).1 == Snapshot();
        return Returned(Failed(AddressInvalid));
      }
      assert segments == AddressStep(address).value.value && ip == Some(Join(segments, ':'));
      assert errors == [] && prefix == Some(text) && networkRange == None;
      var prefixed := IsValidPrefix();
      if !prefixed {
        assert errors == [] + [PrefixStep(text).code] == [PrefixStep(text).code];
        errors := errors + [PrefixInvalid];
        assert AddressStep(address) == Returned(Valid(segments));
        assert PrefixStep(text).Invalid?;
        assert Calculate(query).0 == Returned(Failed(PrefixInvalid));
        assert Calculate(query).1 == Snapshot();
        return Returned(Failed(PrefixInvalid));
      }
      var computed := CalcSubnet();
      match computed
      case Thrown(m) => r := Thrown(m);
      case Returned(_) => r := Returned(Computed);
      assert Calculate(query).1 == Snapshot();
    }

    /** `getErrorMessages()`: the report of the recorded codes, or the
        exception of the first code without a message. */
    method GetErrorMessages() returns (r: Flow<string>)
      ensures r == ErrorReport(errors)
    {
      var msg := "";
      var k := 0;
      assert errors[k..] == errors;
      assert PrependTo(msg, ErrorReport(errors)) == ErrorReport(errors) by {
        if ErrorReport(errors).Returned? {
          assert msg + ErrorReport(errors).value == ErrorReport(errors).value;
        }
      }
      while k < |errors|
        invariant 0 <= k <= |errors|
        invariant ErrorReport(errors) == PrependTo(msg, ErrorReport(errors[k..]))
      {
        assert errors[k..][0] == errors[k] && errors[k..][1..] == errors[k + 1..];
        var line := ErrorMessage(errors[k]);
        if line.Thrown? {
          return Thrown(line.message);
        }
        PrependTwice(msg, line.value + [EndOfLine], ErrorReport(errors[k + 1..]));
        msg := msg + (line.value + [EndOfLine]);
        k := k + 1;
      }
      assert errors[k..] == [];
      assert msg + "" == msg;
      return Returned(msg);
    }

    /** `isValidQuery($string)`: records the failure code, or stores the
        address and prefix parts. */
    method IsValidQuery(query: string) returns (ok: bool)
      modifies this
      ensures ok <==> QueryStep(query).Valid?
      ensures QueryStep(query).Invalid? ==>
        Snapshot() == old(Snapshot()).(errors := old(errors) + [QueryStep(query).code])
      ensures QueryStep(query).Valid? ==>
        Snapshot() == old(Snapshot()).(ip := Some(QueryStep(query).value.0), prefix := Some(QueryStep(query).value.1))
    {
      if IsPhpEmpty(query) {
        errors := errors + [QueryEmpty];
        return false;
      } else if |query| > QueryLimit {
        errors := errors + [QueryTooLong];
        return false;
      }
      var list := Split(query, '/');
      if |list| != 2 {
        errors := errors + [QueryInvalid];
        return false;
      }
      ip := Some(list[0]);
      prefix := Some(list[1]);
      return true;
    }

    /** `isValidAddress()`: checks the stored address (`null` is empty),
        records the failure code, or stores the normalized groups and the
        address written from them. */
    method IsValidAddress() returns (r: Flow<bool>)
      modifies this
      ensures AddressStep(old(ip).GetOr("")).Thrown? ==>
        r == Thrown(ExpandFailure) && Snapshot() == old(Snapshot())
      ensures AddressStep(old(ip).GetOr("")).Returned? && AddressStep(old(ip).GetOr("")).value.Invalid? ==>
        r == Returned(false)
        && Snapshot() == old(Snapshot()).(errors := old(errors) + [AddressStep(old(ip).GetOr("")).value.code])
      ensures AddressStep(old(ip).GetOr("")).Returned? && AddressStep(old(ip).GetOr("")).value.Valid? ==>
        r == Returned(true)
        && Snapshot() == old(Snapshot()).(segments := AddressStep(old(ip).GetOr("")).value.value,
                                          ip := Some(Join(AddressStep(old(ip).GetOr("")).value.value, ':')))
    {
      var address := ip.GetOr("");
      if IsPhpEmpty(address) {
        errors := errors + [AddressEmpty];
        return Returned(false);
      } else if |address| > AddressLimit {
        errors := errors + [AddressLongToo];
        return Returned(false);
      }
      var valid := ValidateAddressFormat(address);
      match valid
      case Thrown(m) => r := Thrown(m);
      case Returned(true) =>
        ip := Some(Join(segments, ':'));
        r := Returned(true);
      case Returned(false) => r := Returned(false);
    }

    /** `validateAddressFormat($address)`: stores the groups that
        `splitAddressString` returns. */
    method ValidateAddressFormat(address: string) returns (r: Flow<bool>)
      modifies this
      ensures SplitStep(address).Thrown? ==> r == Thrown(ExpandFailure) && Snapshot() == old(Snapshot())
      ensures SplitStep(address).Returned? && SplitStep(address).value.Invalid? ==>
        r == Returned(false)
        && Snapshot() == old(Snapshot()).(errors := old(errors) + [SplitStep(address).value.code])
      ensures SplitStep(address).Returned? && SplitStep(address).value.Valid? ==>
        r == Returned(true) && Snapshot() == old(Snapshot()).(segments := SplitStep(address).value.value)
    {
      var split := SplitAddressString(address);
      match split
      case Thrown(m) => r := Thrown(m);
      case Returned(None) => r := Returned(false);
      case Returned(Some(groups)) =>
        segments := groups;
        r := Returned(true);
    }

    /** `splitAddressString($string)`: `false` (here `None`) with the code
        recorded when there are more than eight pieces, otherwise the
        normalized pieces. */
    method SplitAddressString(address: string) returns (r: Flow<Option<seq<string>>>)
      modifies this
      ensures SplitStep(address).Thrown? ==> r == Thrown(ExpandFailure) && Snapshot() == old(Snapshot())
      ensures SplitStep(address).Returned? && SplitStep(address).value.Invalid? ==>
        r == Returned(None)
        && Snapshot() == old(Snapshot()).(errors := old(errors) + [SplitStep(address).value.code])
      ensures SplitStep(address).Returned? && SplitStep(address).value.Valid? ==>
        r == Returned(Some(SplitStep(address).value.value)) && Snapshot() == old(Snapshot())
    {
      var pieces := Split(address, ':');
      if |pieces| > GroupCount {
        assert SplitStep(address) == Returned(Invalid(AddressSegmentsCount));
        errors := errors + [AddressSegmentsCount];
        return Returned(None);
      }
      var normalized := NormalizeSegments(pieces);
      match normalized
      case Thrown(m) =>
        assert SplitStep(address) == Thrown(m);
        r := Thrown(m);
      case Returned(groups) =>
        assert SplitStep(address) == Returned(Valid(groups));
        r := Returned(Some(groups));
    }

    /** `normalizeSegments(&$segments)`: expansion, then every group whose
        length is not four padded with zeros on the left. */
    method NormalizeSegments(segs: seq<string>) returns (r: Flow<seq<string>>)
      ensures r == Normalize(segs)
    {
      var expanded := ExpandSegments(segs);
      if expanded.Thrown? {
        return Thrown(expanded.message);
      }
      var groups := expanded.value;
      var i := 0;
      while i < |groups|
        invariant 0 <= i <= |groups| == |expanded.value|
        invariant forall j :: 0 <= j < i ==> groups[j] == PadGroup(expanded.value[j])
        invariant forall j :: i <= j < |groups| ==> groups[j] == expanded.value[j]
      {
        if |groups[i]| != 4 {
          groups := groups[i := PadGroup(groups[i])];
        }
        i := i + 1;
      }
      assert groups == PadAll(expanded.value);
      return Returned(groups);
    }

    /** `expandSegments(&$segments)`: eight pieces stay as they are;
        otherwise each empty piece becomes `9 - count` zero groups and
        anything but eight groups throws. */
    method ExpandSegments(segs: seq<string>) returns (r: Flow<seq<string>>)
      ensures r == Expand(segs)
    {
      var t := 8;
      var c := |segs|;
      if c == t {
        return Returned(segs);
      }
      var diff := t - c;
      var newSegments: seq<string> := [];
      var k := 0;
      while k < |segs|
        invariant 0 <= k <= |segs|
        invariant newSegments == ExpandEach(segs[..k], Copies(c))
      {
        assert segs[..k + 1][..k] == segs[..k];
        assert ExpandEach(segs[..k + 1], Copies(c)) == ExpandEach(segs[..k], Copies(c)) + ExpandOne(segs[k], Copies(c));
        if IsPhpEmpty(segs[k]) {
          var i := 0;
          while i <= diff
            invariant 0 <= i && (diff >= 0 ==> i <= diff + 1) && (diff < 0 ==> i == 0)
            invariant newSegments == ExpandEach(segs[..k], Copies(c)) + Repeat(ZeroGroup, i)
          {
            RepeatSnoc(ZeroGroup, i);
            newSegments := newSegments + [ZeroGroup];
            i := i + 1;
          }
        } else {
          newSegments := newSegments + [segs[k]];
        }
        k := k + 1;
      }
      assert segs[..|segs|] == segs;
      if |newSegments| != 8 {
        return Thrown(ExpandFailure);
      }
      return Returned(newSegments);
    }

    /** `isValidPrefix()`: checks the stored prefix (`null` is empty) and
        records the failure code. */
    method IsValidPrefix() returns (ok: bool)
      modifies this
      ensures ok <==> PrefixStep(old(prefix).GetOr("")).Valid?
      ensures PrefixStep(old(prefix).GetOr("")).Invalid? ==>
        Snapshot() == old(Snapshot()).(errors := old(errors) + [PrefixStep(old(prefix).GetOr("")).code])
      ensures PrefixStep(old(prefix).GetOr("")).Valid? ==> Snapshot() == old(Snapshot())
    {
      var text := prefix.GetOr("");
      if IsPhpEmpty(text) {
        errors := errors + [PrefixEmpty];
        return false;
      } else if !IsNumeric(text) {
        errors := errors + [PrefixNotNumeric];
        return false;
      } else if NumericValue(text) < 1 || NumericValue(text) > MaxPrefix {
        errors := errors + [PrefixRange];
        return false;
      }
      return true;
    }

    /** `calcSubnet()`: throws for a prefix that is not numeric, otherwise
        stores the range of `Range` for the stored groups. It reads the
        boundary group at index `prefix / 16`, which is the missing ninth
        group (read as "") for prefix 128. */
    method CalcSubnet() returns (r: Flow<bool>)
      requires |segments| == GroupCount
      requires prefix.Some? && IsNumeric(prefix.value) ==> NumericValue(prefix.value) <= MaxPrefix
      modifies this
      ensures !IsNumeric(old(prefix).GetOr("")) ==> r == Thrown(PrefixUnavailable) && Snapshot() == old(Snapshot())
      ensures IsNumeric(old(prefix).GetOr("")) ==>
        r == Returned(true)
        && Snapshot() == old(Snapshot()).(networkRange := Some(Range(old(segments), NumericValue(old(prefix).value))))
    {
      var text := prefix.GetOr("");
      if !IsNumeric(text) {
        return Thrown(PrefixUnavailable);
      }
      var p := NumericValue(text);
      assert p <= MaxPrefix;
      var group, mod := p / 16, p % 16;
      var segment := if group < |segments| then segments[group] else "";
      var bounds := BoundaryGroups(segment, mod);
      var low, high := bounds.0, bounds.1;
      var segmentsMin, segmentsMax := FillBounds(segments, group, low, high);
      RangeOfBounds(segments, p, low, high, segmentsMin, segmentsMax);
      networkRange := Some(NetworkRange(Join(segmentsMin, ':'), Join(segmentsMax, ':'), NumberFormat(Hosts(p))));
      return Returned(true);
    }
  }
}
