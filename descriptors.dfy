/**
 * The memory-map records: `Address` (one named region as the map provider
 * describes it), `AddressRange` (the half-open interval of addresses it
 * covers) and the first-match lookup `find` that both the hover and the
 * sidebar run over a list of ranges.
 */
module Descriptors {
  import opened Wrappers
  import opened Numbers
  import Markup

  /**
   * One record of the map as `Object.assign` leaves it. A field the record
   * lacks keeps its class default ("" for the strings, 0 for `size`);
   * `sizeText` is what `size.toString()` gives, so a numeric 8192 and the
   * string "8192" both arrive as "8192". `details` holds the entries of the
   * details object, in the order `Object.entries` lists them.
   */
  datatype Record = Record(
    address: string,
    sizeText: string,
    context: Option<string>,
    kind: string,
    description: string,
    details: Option<seq<(string, string)>>)

  /** An `Address` once its constructor has run. */
  datatype Address = Address(
    address: string,
    size: JsNumber,
    context: Option<string>,
    kind: string,
    description: string,
    details: Option<seq<(string, string)>>)

  /** `[begin, end)`, each a number or NaN, and the descriptor it came from. */
  datatype AddressRange = AddressRange(begin: JsNumber, end: JsNumber, addr: Address)

  /**
   * `new Address(json)`: the size is re-read with `Number.parseInt` and the
   * description is rewritten into Markdown; every other field is kept.
   */
  function MakeAddress(r: Record): (a: Address)
    ensures a.address == r.address && a.context == r.context && a.kind == r.kind && a.details == r.details
    ensures IsDecimalString(r.sizeText) && r.sizeText != [] ==> a.size == Int(DecimalValue(r.sizeText))
    ensures r.sizeText == [] || (!IsDecimalDigit(r.sizeText[0]) && r.sizeText[0] != '-' && r.sizeText[0] != '+')
            ==> a.size.NaN?
    ensures a.description == Markup.Prepare(r.description)
  {
    assert IsDecimalString(r.sizeText) && r.sizeText != [] ==> ParseDecimalInt(r.sizeText) == Int(DecimalValue(r.sizeText)) by {
      if IsDecimalString(r.sizeText) && r.sizeText != [] {
        ParseDecimalIntOfDigits(r.sizeText);
      }
    }
    Address(r.address, ParseDecimalInt(r.sizeText), r.context, r.kind, Markup.Prepare(r.description), r.details)
  }

  /** `s.substring(1)`: everything after the first character, "" for the empty string. */
  function DropFirst(s: string): (t: string)
    ensures s != [] ==> [s[0]] + t == s
    ensures s == [] ==> t == []
  {
    if s == [] then [] else s[1..]
  }

  /** Number addition where NaN absorbs everything. */
  function Plus(x: JsNumber, y: JsNumber): (z: JsNumber)
    ensures z.Int? <==> x.Int? && y.Int?
    ensures z.Int? ==> z.value == x.value + y.value
  {
    if x.Int? && y.Int? then Int(x.value + y.value) else NaN
  }

  /** `new AddressRange(addr)`: `begin` is the hex after the one-character prefix, `end` is `begin + size`. */
  function MakeRange(addr: Address): (r: AddressRange)
    ensures r.addr == addr
    ensures r.begin == ParseHexInt(DropFirst(addr.address))
    ensures r.end == Plus(r.begin, addr.size)
  {
    var begin := ParseHexInt(DropFirst(addr.address));
    AddressRange(begin, Plus(begin, addr.size), addr)
  }

  /** `a >= x.begin && a < x.end`: a comparison with NaN is false. */
  predicate Contains(r: AddressRange, a: int) {
    r.begin.Int? && r.end.Int? && r.begin.value <= a < r.end.value
  }

  /** The range of a record built the way the map loader builds it. */
  function ParseRange(r: Record): AddressRange {
    MakeRange(MakeAddress(r))
  }

  /** The index of the first range, from `from` on, that contains `a`. */
  function FirstContaining(ranges: seq<AddressRange>, a: int, from: nat): (r: Option<nat>)
    decreases |ranges| - from
    ensures r.Some? ==> from <= r.value < |ranges| && Contains(ranges[r.value], a)
    ensures r.Some? ==> forall j :: from <= j < r.value ==> !Contains(ranges[j], a)
    ensures r.None? <==> forall j :: from <= j < |ranges| ==> !Contains(ranges[j], a)
  {
    if from >= |ranges| then None
    else if Contains(ranges[from], a) then Some(from)
    else FirstContaining(ranges, a, from + 1)
  }

  /**
   * `ranges.find(x => a >= x.begin && a < x.end)`: the first range in list
   * order that contains `a`, or nothing when none does.
   */
  function Find(ranges: seq<AddressRange>, a: int): (r: Option<AddressRange>)
    ensures r.None? <==> forall j :: 0 <= j < |ranges| ==> !Contains(ranges[j], a)
    ensures r.Some? ==> Contains(r.value, a)
    ensures r.Some? ==> exists i :: 0 <= i < |ranges| && ranges[i] == r.value
                                    && forall j :: 0 <= j < i ==> !Contains(ranges[j], a)
  {
    match FirstContaining(ranges, a, 0)
    case None => None
    case Some(i) => Some(ranges[i])
  }

  // ---------------------------------------------------------------------------
  // Lemmas
  // ---------------------------------------------------------------------------

  /**
   * A well-formed descriptor `<prefix><hex digits>` of size `n` covers
   * exactly the addresses from its hex value up to, not including, that
   * value plus `n`.
   */
  lemma RangeOfDescriptor(addr: Address, prefix: char, digits: string, n: int)
    requires IsHexString(digits) && digits != []
    requires addr.address == [prefix] + digits && addr.size == Int(n)
    ensures MakeRange(addr).begin == Int(HexValue(digits))
    ensures MakeRange(addr).end == Int(HexValue(digits) + n)
    ensures forall a :: Contains(MakeRange(addr), a) <==> HexValue(digits) <= a < HexValue(digits) + n
  {
    assert DropFirst(addr.address) == digits;
    ParseHexIntOfHexString(digits);
  }

  /**
   * `parseAddress` on a record whose address is a one-character prefix and hex
   * digits, and whose size is written in decimal digits, gives the range from
   * that hex value up to, not including, the value plus the size.
   */
  lemma RecordRange(r: Record, prefix: char, digits: string)
    requires IsHexString(digits) && digits != [] && r.address == [prefix] + digits
    requires IsDecimalString(r.sizeText) && r.sizeText != []
    ensures ParseRange(r).addr == MakeAddress(r)
    ensures ParseRange(r).begin == Int(HexValue(digits))
    ensures ParseRange(r).end == Int(HexValue(digits) + DecimalValue(r.sizeText))
    ensures forall a :: Contains(ParseRange(r), a) <==> HexValue(digits) <= a < HexValue(digits) + DecimalValue(r.sizeText)
  {
    var addr := MakeAddress(r);
    assert addr.address == [prefix] + digits && addr.size == Int(DecimalValue(r.sizeText));
    RangeOfDescriptor(addr, prefix, digits, DecimalValue(r.sizeText));
  }

  /** `parseAddress` on a record whose size text has no leading digit or sign gives a range that holds nothing. */
  lemma RecordWithoutSizeHoldsNothing(r: Record, a: int)
    requires r.sizeText == [] || (!IsDecimalDigit(r.sizeText[0]) && r.sizeText[0] != '-' && r.sizeText[0] != '+')
    ensures ParseRange(r).end.NaN?
    ensures !Contains(ParseRange(r), a)
  {
    MalformedRangeContainsNothing(MakeAddress(r), a);
  }

  /** A descriptor whose address or size does not parse yields a range that contains nothing. */
  lemma MalformedRangeContainsNothing(addr: Address, a: int)
    requires DropFirst(addr.address) == [] || !IsHexDigit(DropFirst(addr.address)[0]) || addr.size.NaN?
    ensures !Contains(MakeRange(addr), a)
  {
  }

  /** A range whose size is not positive contains nothing; one that contains something has size at least 1. */
  lemma NonEmptyRangeHasPositiveSize(addr: Address, a: int)
    requires Contains(MakeRange(addr), a)
    ensures addr.size.Int? && addr.size.value >= 1
    ensures MakeRange(addr).begin.value >= 0
  {
  }

  /** Only the ranges before the first match are passed over: adding ranges after it does not change the answer. */
  lemma {:induction false} FindIgnoresLaterRanges(ranges: seq<AddressRange>, more: seq<AddressRange>, a: int)
    requires Find(ranges, a).Some?
    ensures Find(ranges + more, a) == Find(ranges, a)
  {
    var i := FirstContaining(ranges, a, 0).value;
    var all := ranges + more;
    assert all[i] == ranges[i];
    assert forall j :: 0 <= j < i ==> all[j] == ranges[j];
    FirstContainingUnique(all, a, i);
  }

  /** Any index that contains `a` with no earlier one that does is the one the scan stops at. */
  lemma FirstContainingUnique(ranges: seq<AddressRange>, a: int, i: nat)
    requires i < |ranges| && Contains(ranges[i], a)
    requires forall j :: 0 <= j < i ==> !Contains(ranges[j], a)
    ensures FirstContaining(ranges, a, 0) == Some(i)
  {
    var r := FirstContaining(ranges, a, 0);
    assert r.Some?;
  }

  /** A range placed ahead of the others wins for every address it contains. */
  lemma FindPrefersEarlier(first: AddressRange, rest: seq<AddressRange>, a: int)
    requires Contains(first, a)
    ensures Find([first] + rest, a) == Some(first)
  {
    FirstContainingUnique([first] + rest, a, 0);
  }
}
