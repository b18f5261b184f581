/**
 * The sidebar search: the user types an address and picks the RAM or the
 * ROM map; the typed text is normalised to a 24-bit address, the first
 * range of that map that holds it is looked up, and its description (or
 * "Nothing found") becomes the provider's `searchResult`, which the view
 * shows after converting it from Markdown to HTML.
 */
module Sidebar {
  import opened Wrappers
  import opened Numbers
  import opened Descriptors
  import Hover
  import HoverProperties

  /**
   * The group `/^\$?([a-fA-F0-9]{0,6})/` captures: after an optional `$`,
   * every hex digit that follows, up to six. The pattern accepts zero
   * digits, so it matches every string.
   */
  function InputDigits(value: string): (g: string)
    ensures IsHexString(g) && |g| <= 6
    ensures var k := if value != [] && value[0] == '$' then 1 else 0;
            k + |g| <= |value| && value[k..k + |g|] == g
            && (|g| < 6 ==> k + |g| == |value| || !IsHexDigit(value[k + |g|]))
  {
    var k := if value != [] && value[0] == '$' then 1 else 0;
    var n := HexRunLength(value, k);
    value[k..k + (if n < 6 then n else 6)]
  }

  /**
   * The address a search looks up: up to four typed digits are an offset in
   * bank 7E for a RAM search and in bank 00 otherwise; five or six digits are
   * a full address.
   */
  function SearchAddress(value: string, kind: string): nat {
    var g := InputDigits(value);
    if |g| <= 4 then (if kind == "ram" then 0x7E0000 else 0) + HexValue(g) else HexValue(g)
  }

  /** The text a lookup leaves in `searchResult`. */
  function Describe(found: Option<AddressRange>): string {
    match found
    case None => "Nothing found"
    case Some(r) => r.addr.description
  }

  /**
   * `searchResult` after one message: cleared for an absent or empty value;
   * otherwise the description from the chosen map (kept as it was for any
   * other kind), passed through the Markdown renderer `marked`.
   */
  function SearchOutcome(ramMap: seq<AddressRange>, romMap: seq<AddressRange>, value: Option<string>,
                         kind: string, previous: string, marked: string -> string): string {
    if value.None? || value.value == [] then ""
    else
      var a := SearchAddress(value.value, kind);
      marked(if kind == "ram" then Describe(Find(ramMap, a))
             else if kind == "rom" then Describe(Find(romMap, a))
             else previous)
  }

  /** The handler's normalisation: pad the captured digits to four, prefix the bank, parse. */
  method Normalise(value: string, kind: string) returns (addr: nat)
    ensures addr == SearchAddress(value, kind)
  {
    var strAddr := InputDigits(value);
    ghost var g := strAddr;
    ghost var bank: nat := if |g| <= 4 && kind == "ram" then 0x7E0000 else 0;
    assert SearchAddress(value, kind) == bank + HexValue(g);
    strAddr := PadStart(strAddr, 4, '0');
    assert IsHexString(strAddr) && HexValue(strAddr) == HexValue(g) && (|strAddr| == 4 <==> |g| <= 4) by {
      PadStartKeepsValue(g, 4);
    }
    if |strAddr| == 4 {
      if kind == "ram" {
        Hover.BankPrefixValue(strAddr);
        strAddr := "7E" + strAddr;
      } else {
        Hover.ZeroPrefixKeepsValue(strAddr);
        strAddr := "00" + strAddr;
      }
    }
    assert IsHexString(strAddr) && HexValue(strAddr) == bank + HexValue(g);
    ParseHexIntOfHexString(strAddr);
    addr := ParseHexInt(strAddr).value;
  }

  /** The sidebar view's provider, holding the two maps and the text of the last search. */
  class SidebarProvider {
    var ramMap: seq<AddressRange>
    var romMap: seq<AddressRange>
    var searchResult: string

    constructor(ramMap: seq<AddressRange>, romMap: seq<AddressRange>)
      ensures this.ramMap == ramMap && this.romMap == romMap && searchResult == ""
    {
      this.ramMap := ramMap;
      this.romMap := romMap;
      searchResult := "";
    }

    /** The handler for a search message from the view. */
    method ReceiveMessage(value: Option<string>, kind: string, marked: string -> string)
      modifies this`searchResult
      ensures searchResult == SearchOutcome(ramMap, romMap, value, kind, old(searchResult), marked)
    {
      if value.None? || value.value == [] {
        searchResult := "";
        return;
      }
      var addr := Normalise(value.value, kind);
      if kind == "ram" {
        var val := Find(ramMap, addr);
        searchResult := if val.None? then "Nothing found" else val.value.addr.description;
      } else if kind == "rom" {
        var val := Find(romMap, addr);
        searchResult := if val.None? then "Nothing found" else val.value.addr.description;
      }
      searchResult := marked(searchResult);
    }

    /** Restoring the view clears the last result. */
    method Revive()
      modifies this`searchResult
      ensures searchResult == ""
    {
      searchResult := "";
    }
  }

  // ---------------------------------------------------------------------------
  // Lemmas
  // ---------------------------------------------------------------------------

  /** Hex digits typed with or without a `$` are captured whole. */
  lemma InputDigitsOfHex(digits: string)
    requires IsHexString(digits) && |digits| <= 6
    ensures InputDigits(digits) == digits
    ensures InputDigits("$" + digits) == digits
  {
    HexRunExact(digits, 0, |digits|);
    assert digits[0..|digits|] == digits;
    var v := "$" + digits;
    assert v[1..1 + |digits|] == digits;
    HexRunExact(v, 1, |digits|);
  }

  /**
   * Text with no hex digit after the optional `$` still matches, captures
   * nothing, and searches the start of bank 7E (RAM) or bank 00 (otherwise).
   */
  lemma NoDigitsSearchBankStart(value: string, kind: string)
    requires var k := if value != [] && value[0] == '$' then 1 else 0;
             k == |value| || !IsHexDigit(value[k])
    ensures InputDigits(value) == []
    ensures SearchAddress(value, kind) == if kind == "ram" then 0x7E0000 else 0
  {
    var k := if value != [] && value[0] == '$' then 1 else 0;
    HexRunExact(value, k, 0);
  }

  /** Every searched address fits in 24 bits; a short RAM search stays inside bank 7E. */
  lemma SearchAddressBounds(value: string, kind: string)
    ensures SearchAddress(value, kind) < 0x1000000
    ensures |InputDigits(value)| <= 4 && kind == "ram" ==> 0x7E0000 <= SearchAddress(value, kind) < 0x7F0000
    ensures |InputDigits(value)| <= 4 && kind != "ram" ==> SearchAddress(value, kind) < 0x10000
  {
    var g := InputDigits(value);
    Pow16Grows(|g|, 6);
    if |g| <= 4 {
      Pow16Grows(|g|, 4);
    }
    assert Pow16(4) == 0x10000;
    assert Pow16(6) == 0x1000000;
  }

  /**
   * The sidebar and the hover agree on every token the hover reads as RAM
   * from at most four digits or as ROM from four, and on every six-digit
   * token.
   */
  lemma SearchAgreesWithHover(digits: string, mayBeRom: bool)
    requires IsHexString(digits) && (|digits| == 2 || |digits| == 4 || |digits| == 6)
    ensures |digits| <= 4 && HexValue(digits) <= 0x1FFF ==>
              Hover.Classify(digits, mayBeRom) == Hover.Ram(SearchAddress(digits, "ram"))
    ensures |digits| == 4 && HexValue(digits) > 0x1FFF && mayBeRom ==>
              Hover.Classify(digits, mayBeRom) == Hover.Rom(SearchAddress(digits, "rom"))
    ensures |digits| == 6 ==> forall kind :: Hover.Classify(digits, mayBeRom).addr == SearchAddress(digits, kind)
  {
    InputDigitsOfHex(digits);
    if |digits| == 2 {
      HoverProperties.TwoDigitsAreRam(digits, mayBeRom);
    }
  }

  /**
   * Typing back the six-digit start or end address a hover's boundary line
   * prints, with its `$`, searches that very address.
   */
  lemma BoundaryTypedBack(n: nat, kind: string)
    requires n < 0x1000000
    ensures SearchAddress("$" + Hover.HexField(n, 6), kind) == n
  {
    assert Pow16(6) == 0x1000000;
    HoverProperties.FieldOfWidth(n, 6);
    InputDigitsOfHex(Hover.HexField(n, 6));
  }
}
