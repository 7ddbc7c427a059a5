/** What one call of `calc($query)` does, as a function from the query to
    the returned value and the calculator's state afterwards. The class in
    module `Calculator` is proved to follow it step by step. */
module Calculation {
  import opened Outcomes
  import opened Positional
  import opened PhpStrings
  import opened BaseConvert
  import opened Segments
  import opened Subnet
  import opened ErrorCodes

  /** Longest accepted query: eight groups of four, seven colons and a
      prefix of up to four characters. */
  const QueryLimit: nat := 4 * 8 + 11
  /** Longest accepted address: eight groups of four and seven colons. */
  const AddressLimit: nat := 4 * 8 + 7
  const MaxPrefix: nat := 128

  /** The `network_range` array once it is filled: its 'min', 'max' and
      'hosts' entries. */
  datatype NetworkRange = NetworkRange(min: string, max: string, hosts: string)

  /** The properties of the calculator; `None` stands for PHP's `null` and
      for the empty `network_range` array. */
  datatype State = State(
    errors: seq<int>,
    segments: seq<string>,
    ip: Option<string>,
    prefix: Option<string>,
    networkRange: Option<NetworkRange>)

  /** What `calc` returns when it does not throw: `true`, or an error code. */
  datatype Answer = Computed | Failed(code: int)

  /** The state `reset()` leaves behind. */
  function Initial(): State {
    State([], [], None, None, None)
  }

  /** `isValidQuery`: the query must not be empty, must fit the length limit
      and must hold exactly one '/', which separates address and prefix. */
  function QueryStep(query: string): (r: Checked<(string, string)>)
    ensures r.Invalid? ==> r.code in {QueryEmpty, QueryTooLong, QueryInvalid}
  {
    if IsPhpEmpty(query) then Invalid(QueryEmpty)
    else if |query| > QueryLimit then Invalid(QueryTooLong)
    else
      var list := Split(query, '/');
      if |list| != 2 then Invalid(QueryInvalid) else Valid((list[0], list[1]))
  }

  /** `isValidAddress` with `validateAddressFormat`: the address must not be
      empty and must fit the length limit; it is then split into groups. */
  function AddressStep(ip: string): (r: Flow<Checked<seq<string>>>)
    ensures r.Returned? && r.value.Valid? ==>
      |r.value.value| == GroupCount && forall i :: 0 <= i < GroupCount ==> |r.value.value[i]| >= 4
    ensures r.Returned? && r.value.Invalid? ==> r.value.code in {AddressEmpty, AddressLongToo, AddressSegmentsCount}
    ensures r.Thrown? ==> r.message == ExpandFailure
  {
    if IsPhpEmpty(ip) then Returned(Invalid(AddressEmpty))
    else if |ip| > AddressLimit then Returned(Invalid(AddressLongToo))
    else SplitStep(ip)
  }

  /** `splitAddressString`: at most eight pieces between colons, which are
      then normalized; normalization may throw. */
  function SplitStep(address: string): (r: Flow<Checked<seq<string>>>)
    ensures r.Returned? && r.value.Valid? ==>
      |r.value.value| == GroupCount && forall i :: 0 <= i < GroupCount ==> |r.value.value[i]| >= 4
    ensures r.Returned? && r.value.Invalid? ==> r.value.code == AddressSegmentsCount
    ensures r.Thrown? ==> r.message == ExpandFailure
  {
    var pieces := Split(address, ':');
    if |pieces| > GroupCount then Returned(Invalid(AddressSegmentsCount))
    else
      match Normalize(pieces)
      case Thrown(m) => Thrown(m)
      case Returned(segments) => Returned(Valid(segments))
  }

  /** `isValidPrefix`: not empty, numeric, and between 1 and 128. */
  function PrefixStep(prefix: string): (r: Checked<nat>)
    ensures r.Valid? ==> IsNumeric(prefix) && r.value == NumericValue(prefix) && 1 <= r.value <= MaxPrefix
    ensures r.Invalid? ==> r.code in {PrefixEmpty, PrefixNotNumeric, PrefixRange}
  {
    if IsPhpEmpty(prefix) then Invalid(PrefixEmpty)
    else if !IsNumeric(prefix) then Invalid(PrefixNotNumeric)
    else
      var p := NumericValue(prefix);
      if p < 1 || p > MaxPrefix then Invalid(PrefixRange) else Valid(p)
  }

  /** The network range `calcSubnet` stores for normalized groups and a
      prefix length. */
  function Range(segments: seq<string>, p: nat): (r: NetworkRange)
    requires |segments| == GroupCount && p <= MaxPrefix
    ensures (forall i :: 0 <= i < GroupCount ==> ':' !in segments[i]) ==>
      Split(r.min, ':') == MinGroups(segments, p) && Split(r.max, ':') == MaxGroups(segments, p)
    ensures ParseBase(r.hosts, 10) == Hosts(p)
  {
    JoinedRangeReadsBack(segments, p);
    NetworkRange(Join(MinGroups(segments, p), ':'), Join(MaxGroups(segments, p), ':'), NumberFormat(Hosts(p)))
  }

  /** `calc($query)`: what it returns (or throws) and the state it leaves.
      A bad query returns `QueryInvalid` with the specific code recorded; a
      bad address or prefix records its specific code followed by
      `AddressInvalid` or `PrefixInvalid`, which is also returned. */
  function Calculate(query: string): (r: (Flow<Answer>, State))
    ensures r.1.networkRange.Some? <==> r.0 == Returned(Computed)
    ensures r.0.Returned? && r.0.value.Failed? <==> |r.1.errors| >= 1
    ensures r.0.Returned? && r.0.value.Failed? ==> r.0.value.code in {QueryInvalid, AddressInvalid, PrefixInvalid}
    ensures r.0.Thrown? ==> r.0.message == ExpandFailure
  {
    var start := Initial();
    match QueryStep(query)
    case Invalid(code) => (Returned(Failed(QueryInvalid)), start.(errors := [code]))
    case Valid((ip, prefix)) =>
      var queried := start.(ip := Some(ip), prefix := Some(prefix));
      match AddressStep(ip)
      case Thrown(m) => (Thrown(m), queried)
      case Returned(Invalid(code)) =>
        (Returned(Failed(AddressInvalid)), queried.(errors := [code, AddressInvalid]))
      case Returned(Valid(segments)) =>
        var addressed := queried.(segments := segments, ip := Some(Join(segments, ':')));
        match PrefixStep(prefix)
        case Invalid(code) => (Returned(Failed(PrefixInvalid)), addressed.(errors := [code, PrefixInvalid]))
        case Valid(p) => (Returned(Computed), addressed.(networkRange := Some(Range(segments, p))))
  }

  // ---------------------------------------------------------------------------
  // Properties of the checks

  /** The query is accepted exactly when it is not empty, fits the limit and
      holds a single '/'. */
  lemma QueryStepIff(query: string)
    ensures QueryStep(query).Valid? <==> !IsPhpEmpty(query) && |query| <= QueryLimit && Count(query, '/') == 1
  {
  }

  /** The accepted query is the address, a '/' and the prefix. */
  lemma QueryStepParts(query: string)
    requires QueryStep(query).Valid?
    ensures var (ip, prefix) := QueryStep(query).value;
      query == ip + "/" + prefix && '/' !in ip && '/' !in prefix
  {
    var list := Split(query, '/');
    assert list == [list[0], list[1]];
    assert Join(list, '/') == list[0] + ['/'] + list[1];
  }

  /** The prefix is accepted exactly when it is a decimal numeral from 1 to
      128; "0" is rejected as empty, before its range is looked at. */
  lemma PrefixStepIff(prefix: string)
    ensures PrefixStep(prefix).Valid? <==> IsNumeric(prefix) && 1 <= NumericValue(prefix) <= MaxPrefix
    ensures PrefixStep("0") == Invalid(PrefixEmpty)
  {
    assert DigitValues("0", 10) == [0] by {
      assert "0"[1..] == [];
    }
    assert Eval([0], 10) == 0 by {
      assert [0][..0] == [];
    }
  }

  /** A fully written address (eight groups of four characters) is accepted
      as it stands. */
  lemma AddressStepFullForm(groups: seq<string>)
    requires |groups| == GroupCount
    requires forall i :: 0 <= i < GroupCount ==> |groups[i]| == 4 && ':' !in groups[i]
    ensures AddressStep(Join(groups, ':')) == Returned(Valid(groups))
  {
    SplitJoin(groups, ':');
    JoinLength(groups, ':');
    NormalizeFullAddress(groups);
    var ip := Join(groups, ':');
    assert |ip| == 39;
    assert !IsPhpEmpty(ip);
  }

  /** The length of `implode` over groups of four characters. */
  lemma {:induction false} JoinLength(groups: seq<string>, d: char)
    requires |groups| >= 1 && forall i :: 0 <= i < |groups| ==> |groups[i]| == 4
    ensures |Join(groups, d)| == 5 * |groups| - 1
  {
    if |groups| > 1 {
      JoinLength(groups[1..], d);
    }
  }

  /** The accepted address is normalized: feeding it back in written form
      (when each group has exactly four characters) gives the same groups. */
  lemma AddressStepStable(ip: string)
    requires AddressStep(ip).Returned? && AddressStep(ip).value.Valid?
    requires forall i :: 0 <= i < GroupCount ==> |AddressStep(ip).value.value[i]| == 4
    ensures AddressStep(Join(AddressStep(ip).value.value, ':')) == AddressStep(ip)
  {
    var segments := AddressStep(ip).value.value;
    NormalizedHasNoColon(Split(ip, ':'));
    AddressStepFullForm(segments);
  }

  /** Normalizing pieces of a colon split adds no colon. */
  lemma NormalizedHasNoColon(pieces: seq<string>)
    requires forall i :: 0 <= i < |pieces| ==> ':' !in pieces[i]
    requires Normalize(pieces).Returned?
    ensures forall i :: 0 <= i < GroupCount ==> ':' !in Normalize(pieces).value[i]
  {
    NormalizeKeepsCharacters(pieces, ':');
  }

  // ---------------------------------------------------------------------------
  // Properties of calc

  /** What `calc` leaves for `getErrorMessages`: every recorded code has a
      message, so the report never throws; a failure records at least one
      code and no range; success records none. */
  lemma CalculateErrors(query: string)
    ensures var (result, state) := Calculate(query);
      && (forall i :: 0 <= i < |state.errors| ==> HasMessage(state.errors[i]))
      && ErrorReport(state.errors).Returned?
      && (result.Returned? && result.value.Failed? ==>
            |state.errors| >= 1 && state.networkRange.None?
            && result.value.code in {QueryInvalid, AddressInvalid, PrefixInvalid})
      && (result == Returned(Computed) ==> state.errors == [] && state.networkRange.Some?)
      && (result.Thrown? ==> result.message == ExpandFailure && state.errors == [])
  {
    ErrorReportLines(Calculate(query).1.errors);
  }

  /** Which codes a failed call leaves: a failed query check records its
      own code only; a failed address or prefix check records its own code
      followed by the code `calc` returns. */
  lemma CalculateFailureCodes(query: string)
    ensures var (result, state) := Calculate(query);
      && (result == Returned(Failed(QueryInvalid)) ==>
            |state.errors| == 1 && state.errors[0] in {QueryEmpty, QueryTooLong, QueryInvalid}
            && state.ip.None? && state.prefix.None?)
      && (result == Returned(Failed(AddressInvalid)) ==>
            |state.errors| == 2 && state.errors[0] in {AddressEmpty, AddressLongToo, AddressSegmentsCount}
            && state.errors[1] == AddressInvalid && state.segments == [])
      && (result == Returned(Failed(PrefixInvalid)) ==>
            |state.errors| == 2 && state.errors[0] in {PrefixEmpty, PrefixNotNumeric, PrefixRange}
            && state.errors[1] == PrefixInvalid && |state.segments| == GroupCount)
  {
  }

  /** A computed range: the address was stored normalized, and the stored
      'min' and 'max' read back as the groups of the block boundaries, and
      'hosts' as 2^(128 - p). */
  lemma CalculateRange(query: string)
    requires Calculate(query).0 == Returned(Computed)
    ensures var state := Calculate(query).1;
      var p := NumericValue(state.prefix.value);
      && 1 <= p <= MaxPrefix
      && |state.segments| == GroupCount
      && state.ip == Some(Join(state.segments, ':'))
      && state.networkRange == Some(Range(state.segments, p))
      && Split(state.networkRange.value.min, ':') == MinGroups(state.segments, p)
      && Split(state.networkRange.value.max, ':') == MaxGroups(state.segments, p)
      && ParseBase(state.networkRange.value.hosts, 10) == Hosts(p)
  {
    var (ip, prefix) := QueryStep(query).value;
    var segments := AddressStep(ip).value.value;
    var p := PrefixStep(prefix).value;
    NormalizedHasNoColon(Split(ip, ':'));
    assert Calculate(query).1
        == State([], segments, Some(Join(segments, ':')), Some(prefix), Some(Range(segments, p)));
  }

  /** Joined with ':', groups without a colon split back into themselves. */
  lemma JoinedRangeReadsBack(segments: seq<string>, p: nat)
    requires |segments| == GroupCount && p <= MaxPrefix
    ensures (forall i :: 0 <= i < GroupCount ==> ':' !in segments[i]) ==>
      Split(Join(MinGroups(segments, p), ':'), ':') == MinGroups(segments, p)
      && Split(Join(MaxGroups(segments, p), ':'), ':') == MaxGroups(segments, p)
  {
    if forall i :: 0 <= i < GroupCount ==> ':' !in segments[i] {
      RangeGroupsHaveNoColon(segments, p);
      SplitJoin(MinGroups(segments, p), ':');
      SplitJoin(MaxGroups(segments, p), ':');
    }
  }

  /** The boundary groups are written in hex digits, so no group of the
      range holds a colon. */
  lemma RangeGroupsHaveNoColon(segments: seq<string>, p: nat)
    requires |segments| == GroupCount && p <= MaxPrefix
    requires forall i :: 0 <= i < GroupCount ==> ':' !in segments[i]
    ensures |MinGroups(segments, p)| >= 1 && |MaxGroups(segments, p)| >= 1
    ensures forall i :: 0 <= i < |MinGroups(segments, p)| ==> ':' !in MinGroups(segments, p)[i]
    ensures forall i :: 0 <= i < |MaxGroups(segments, p)| ==> ':' !in MaxGroups(segments, p)[i]
  {
    var g, m := p / GroupBits, p % GroupBits;
    var segment := if g < GroupCount then segments[g] else "";
    var tail := if g < GroupCount then 7 - g else 0;
    BoundaryGroupsHaveNoColon(segment, m);
    var lo, hi := BoundaryGroups(segment, m).0, BoundaryGroups(segment, m).1;
    assert MinGroups(segments, p) == segments[..g] + [lo] + Repeat(ZeroGroup, tail);
    assert MaxGroups(segments, p) == segments[..g] + [hi] + Repeat(FullGroup, tail);
    GroupsAroundHaveNoColon(segments, g, lo, ZeroGroup, tail);
    GroupsAroundHaveNoColon(segments, g, hi, FullGroup, tail);
  }

  lemma BoundaryGroupsHaveNoColon(segment: string, m: nat)
    requires m < GroupBits
    ensures ':' !in BoundaryGroups(segment, m).0 && ':' !in BoundaryGroups(segment, m).1
  {
    var kept := PadLeft(ToBase(ParseBase(segment, 16), 2), GroupBits, '0')[..m];
    Hex4HasNoColon(ParseBase(PadRight(kept, GroupBits, '0'), 2));
    Hex4HasNoColon(ParseBase(PadRight(kept, GroupBits, '1'), 2));
  }

  lemma GroupsAroundHaveNoColon(segments: seq<string>, g: nat, boundary: string, filler: string, n: nat)
    requires g <= |segments| && ':' !in boundary && ':' !in filler
    requires forall i :: 0 <= i < |segments| ==> ':' !in segments[i]
    ensures |segments[..g] + [boundary] + Repeat(filler, n)| >= 1
    ensures forall i :: 0 <= i < |segments[..g] + [boundary] + Repeat(filler, n)| ==>
      ':' !in (segments[..g] + [boundary] + Repeat(filler, n))[i]
  {
    var groups := segments[..g] + [boundary] + Repeat(filler, n);
    forall i | 0 <= i < |groups|
      ensures ':' !in groups[i]
    {
      if i < g {
        assert groups[i] == segments[i];
      } else if i > g {
        assert groups[i] == filler;
      }
    }
  }

  lemma Hex4HasNoColon(n: nat)
    ensures ':' !in Hex4(n)
  {
    var digits := ToBase(n, 16);
    assert forall i :: 0 <= i < |digits| ==> IsLowerDigit(digits[i]);
    if |digits| < 4 {
      assert Hex4(n) == Repeat('0', 4 - |digits|) + digits;
    }
  }

  // ---------------------------------------------------------------------------
  // Concrete queries

  /** An empty query and the query "0" are both empty to PHP. */
  lemma EmptyQueries()
    ensures Calculate("") == (Returned(Failed(QueryInvalid)), Initial().(errors := [QueryEmpty]))
    ensures Calculate("0") == (Returned(Failed(QueryInvalid)), Initial().(errors := [QueryEmpty]))
  {
  }

  /** A query without '/' has one piece only. */
  lemma QueryWithoutPrefix(query: string)
    requires !IsPhpEmpty(query) && |query| <= QueryLimit && '/' !in query
    ensures Calculate(query) == (Returned(Failed(QueryInvalid)), Initial().(errors := [QueryInvalid]))
  {
    SplitWhole(query, '/');
  }

  /** An address and a prefix without '/' that fit the limit are split
      apart again by the query check. */
  lemma QueryStepOfParts(ip: string, prefix: string)
    requires '/' !in ip && '/' !in prefix && |ip| + 1 + |prefix| <= QueryLimit
    ensures QueryStep(ip + "/" + prefix) == Valid((ip, prefix))
  {
    var query := ip + "/" + prefix;
    assert query == ip + ['/'] + prefix;
    SplitAfterPiece(ip, prefix, '/');
    SplitWhole(prefix, '/');
    assert query[|ip|] == '/';
  }

  /** An address opening with "::" (and fewer than eight pieces) makes
      `expandSegments` throw: the loopback address written "::1" is not
      accepted. */
  lemma LeadingAddressThrows(rest: string)
    requires Count(rest, ':') < 5 && 2 + |rest| <= AddressLimit
    ensures AddressStep("::" + rest) == Thrown(ExpandFailure)
  {
    LeadingPiecesFit(rest);
    LeadingCompressionThrows(rest);
    AddressStepThrows("::" + rest);
  }

  /** "::" followed by fewer than five colons is a non-empty string of at
      most eight pieces. */
  lemma LeadingPiecesFit(rest: string)
    requires Count(rest, ':') < 5
    ensures !IsPhpEmpty("::" + rest) && |Split("::" + rest, ':')| <= GroupCount
  {
    assert ("::" + rest)[0] == ':';
    CountConcat("::", rest, ':');
    assert Count("::", ':') == 2 by {
      assert "::"[1..] == ":" && ":"[1..] == [];
    }
  }

  /** An address that passes the length and piece checks throws exactly when
      its normalization does. */
  lemma AddressStepThrows(ip: string)
    requires !IsPhpEmpty(ip) && |ip| <= AddressLimit && |Split(ip, ':')| <= GroupCount
    ensures AddressStep(ip).Thrown? <==> Normalize(Split(ip, ':')).Thrown?
  {
  }
}
