/**
 * The hover provider for 65c816 assembly: from the text around the hovered
 * word to the Markdown shown for it. The token under the cursor is read as
 * a Super Mario World address (bank 7E RAM, bank 00 ROM, a hardware
 * register, or a full 24-bit address), looked up in the matching memory map,
 * and the first range that holds it is rendered with its description, its
 * detail links and its boundaries.
 */
module Hover {
  import opened Wrappers
  import opened Numbers
  import opened Descriptors

  /** Where a hovered token points once its bank has been inferred. */
  datatype Canonical = Register(addr: nat) | Rom(addr: nat) | Ram(addr: nat) | NoMatch

  /** The three memory maps loaded at activation. */
  datatype Maps = Maps(ram: seq<AddressRange>, rom: seq<AddressRange>, regs: seq<AddressRange>)

  // ---------------------------------------------------------------------------
  // Token extraction
  // ---------------------------------------------------------------------------

  /** The characters `trimEnd` removes: ECMAScript white space and line terminators. */
  predicate IsJsWhitespace(c: char) {
    c == '\t' || c == '\n' || c == '\U{000B}' || c == '\U{000C}' || c == '\r' || c == ' '
    || c == '\U{00A0}' || c == '\U{1680}' || ('\U{2000}' <= c <= '\U{200A}')
    || c == '\U{2028}' || c == '\U{2029}' || c == '\U{202F}' || c == '\U{205F}'
    || c == '\U{3000}' || c == '\U{FEFF}'
  }

  /** `s.trimEnd()`: the longest prefix of `s` that does not end in white space. */
  function TrimEnd(s: string): (t: string)
    ensures |t| <= |s| && t == s[..|t|]
    ensures t == [] || !IsJsWhitespace(t[|t| - 1])
    ensures forall i :: |t| <= i < |s| ==> IsJsWhitespace(s[i])
  {
    if s == [] || !IsJsWhitespace(s[|s| - 1]) then s
    else
      var t := TrimEnd(s[..|s| - 1]);
      assert s[..|s| - 1][..|t|] == s[..|t|];
      t
  }

  predicate EndsWith(s: string, suffix: string) {
    |suffix| <= |s| && s[|s| - |suffix|..] == suffix
  }

  /** `s.substring(0, s.length - 2)`: a negative end clamps to 0. */
  function DropLastTwo(s: string): (t: string)
    ensures |s| >= 2 ==> t + s[|s| - 2..] == s
    ensures |s| < 2 ==> t == []
  {
    if |s| >= 2 then s[..|s| - 2] else []
  }

  /** No string ends with both `,x` and `,y`. */
  lemma SuffixTestAlwaysTrue(word: string)
    ensures !EndsWith(word, ",x") || !EndsWith(word, ",y")
  {
    if EndsWith(word, ",x") {
      assert word[|word| - 1] == word[|word| - 2..][1] == 'x';
    }
  }

  /**
   * The suffix test as the hover provider writes it. Its first operand can
   * never be false, so the last two characters are dropped, and the token is
   * allowed to be ROM, exactly when the trimmed text is not two characters
   * longer than the hovered word: any trailing character after the word
   * triggers it, not only an index suffix.
   */
  function StripSuffixAsWritten(word: string, realRange: nat): (r: (string, bool))
    ensures r.1 <==> realRange != |word| - 2
    ensures r.1 ==> r.0 == DropLastTwo(word)
    ensures !r.1 ==> r.0 == word
  {
    SuffixTestAlwaysTrue(word);
    if (!EndsWith(word, ",x") || !EndsWith(word, ",y")) && realRange != |word| - 2 then (DropLastTwo(word), true)
    else (word, false)
  }

  /**
   * The suffix test as its comment describes it: an index suffix `,x` or `,y`
   * after the word is dropped, and an indexed operand may then be a bank 00
   * ROM table rather than a register.
   */
  function StripSuffix(word: string, realRange: nat): (r: (string, bool))
    ensures r.1 ==> |word| >= 2 && word == r.0 + [',', word[|word| - 1]]
                    && (word[|word| - 1] == 'x' || word[|word| - 1] == 'y')
    ensures !r.1 ==> r.0 == word
    ensures r.1 <==> (EndsWith(word, ",x") || EndsWith(word, ",y")) && realRange != |word| - 2
  {
    if (EndsWith(word, ",x") || EndsWith(word, ",y")) && realRange != |word| - 2 then
      assert word == DropLastTwo(word) + word[|word| - 2..];
      (DropLastTwo(word), true)
    else (word, false)
  }

  /** `/[^#][$!]([0-9A-Fa-f]{2,6})/` can match at `p`: not an immediate operand, a `$` or `!`, two or more hex digits. */
  predicate MatchesAt(word: string, p: nat) {
    p + 1 < |word| && word[p] != '#' && (word[p + 1] == '$' || word[p + 1] == '!')
    && HexRunLength(word, p + 2) >= 2
  }

  /** The leftmost position from `from` on where the token pattern matches. */
  function MatchIndex(word: string, from: nat): (r: Option<nat>)
    decreases |word| - from
    ensures r.Some? ==> from <= r.value && MatchesAt(word, r.value)
    ensures r.Some? ==> forall q :: from <= q < r.value ==> !MatchesAt(word, q)
    ensures r.None? <==> forall q :: from <= q ==> !MatchesAt(word, q)
  {
    if from + 1 >= |word| then None
    else if MatchesAt(word, from) then Some(from)
    else MatchIndex(word, from + 1)
  }

  /** The captured group: the greedy `{2,6}` takes every hex digit that follows, up to six. */
  function Group(word: string, p: nat): (g: string)
    requires MatchesAt(word, p)
    ensures 2 <= |g| <= 6 && IsHexString(g)
    ensures p + 2 + |g| <= |word| && word[p + 2..p + 2 + |g|] == g
    ensures |g| < 6 ==> p + 2 + |g| == |word| || !IsHexDigit(word[p + 2 + |g|])
  {
    var n := HexRunLength(word, p + 2);
    word[p + 2..p + 2 + (if n < 6 then n else 6)]
  }

  // ---------------------------------------------------------------------------
  // Bank inference
  // ---------------------------------------------------------------------------

  /**
   * What a run of hex digits names. Two digits, and four digits up to $1FFF,
   * are bank 7E RAM; four digits above that are a hardware register, or bank
   * 00 ROM when the operand may be ROM; six digits are ROM below $100000 and
   * RAM from there on. An odd count names nothing.
   */
  function Classify(digits: string, mayBeRom: bool): Canonical
    requires IsHexString(digits) && 2 <= |digits| <= 6
  {
    var v := HexValue(digits);
    if |digits| % 2 == 1 then NoMatch
    else if |digits| == 6 then (if v < 0x100000 then Rom(v) else Ram(v))
    else if v <= 0x1FFF then Ram(0x7E0000 + v)
    else if mayBeRom then Rom(v)
    else Register(v)
  }

  /** The leftmost token of `word`, classified. */
  function Resolve(word: string, mayBeRom: bool): Canonical {
    match MatchIndex(word, 0)
    case None => NoMatch
    case Some(p) => Classify(Group(word, p), mayBeRom)
  }

  /**
   * The text the pattern is run on, and whether its token may be ROM: the
   * window (the word with two characters either side) trimmed, stripped of an
   * index suffix by the intended test, and trimmed again.
   */
  function Token(window: string, realRange: nat): (string, bool) {
    var stripped := StripSuffix(TrimEnd(window), realRange);
    (TrimEnd(stripped.0), stripped.1)
  }

  /** The same with the suffix test as written. */
  function TokenAsWritten(window: string, realRange: nat): (string, bool) {
    var stripped := StripSuffixAsWritten(TrimEnd(window), realRange);
    (TrimEnd(stripped.0), stripped.1)
  }

  /** The hovered token of `window`, with the intended suffix test. */
  function Canonicalise(window: string, realRange: nat): Canonical {
    var t := Token(window, realRange);
    Resolve(t.0, t.1)
  }

  /** The hovered token of `window`, with the suffix test as written. */
  function CanonicaliseAsWritten(window: string, realRange: nat): Canonical {
    var t := TokenAsWritten(window, realRange);
    Resolve(t.0, t.1)
  }

  /** The map searched for a canonical address. */
  function MapFor(maps: Maps, c: Canonical): seq<AddressRange> {
    if c.Register? then maps.regs else if c.Rom? then maps.rom else maps.ram
  }

  // ---------------------------------------------------------------------------
  // Rendering
  // ---------------------------------------------------------------------------

  const DetailUrl := "https://www.smwcentral.net/?p=memorymap&a=detail&game=smw&region="

  /** A Markdown hard line break. */
  const LineBreak := "  \n"

  /** Registers print with four digits, every other address with six. */
  function Width(c: Canonical): nat {
    if c.Register? then 4 else 6
  }

  /** The detail pages of a ROM address are in the ROM region, all others in the RAM region. */
  function Region(c: Canonical): string {
    if c.Rom? then "rom" else "ram"
  }

  /** `n.toString(16).toUpperCase().padStart(width, '0')`. */
  function HexField(n: int, width: nat): string {
    PadStart(IntToHex(n), width, '0')
  }

  /** One detail link: the entry's text pointing at its detail page. */
  function Link(entry: (string, string), region: string): string {
    "[" + entry.1 + "](" + DetailUrl + region + "&detail=" + entry.0 + ")"
  }

  /** The links the `for` loop pushes, one per details entry, in entry order. */
  function Links(entries: seq<(string, string)>, region: string): (ls: seq<string>)
    ensures |ls| == |entries|
    ensures forall i :: 0 <= i < |entries| ==> ls[i] == Link(entries[i], region)
  {
    if entries == [] then []
    else Links(entries[..|entries| - 1], region) + [Link(entries[|entries| - 1], region)]
  }

  /** `parts.join(sep)`. */
  function Join(parts: seq<string>, sep: string): (r: string)
    ensures parts == [] ==> r == ""
    ensures |parts| == 1 ==> r == parts[0]
    ensures |parts| >= 2 ==> |r| >= (|parts| - 1) * |sep|
  {
    if parts == [] then ""
    else if |parts| == 1 then parts[0]
    else Join(parts[..|parts| - 1], sep) + sep + parts[|parts| - 1]
  }

  /** The boundary line of a range: its first address and its last, `end - 1`, both inclusive. */
  function Boundary(r: AddressRange, width: nat): string
    requires r.begin.Int? && r.end.Int?
  {
    BoundaryOf(r.begin.value, r.end.value - 1, width)
  }

  /** The boundary line from `first` to `last`, both printed as hex fields of `width`. */
  function BoundaryOf(first: int, last: int, width: nat): string {
    BoundaryLine(HexField(first, width), HexField(last, width))
  }

  function BoundaryLine(first: string, last: string): string {
    "Starts at $" + first + " and ends at $" + last + "."
  }

  /**
   * The Markdown shown for a range: its description, then the detail links
   * when it has details, then the boundary line when it is more than one
   * byte long, separated by hard line breaks.
   */
  function HoverMarkdown(r: AddressRange, width: nat, region: string): string
    requires r.begin.Int? && r.end.Int?
  {
    var desc := r.addr.description;
    var wide := r.addr.size.Int? && r.addr.size.value > 1;
    match r.addr.details
    case None => if wide then desc + LineBreak + Boundary(r, width) else desc
    case Some(entries) =>
      var full := Join(Links(entries, region), LineBreak);
      if wide then desc + LineBreak + full + LineBreak + Boundary(r, width)
      else desc + LineBreak + full
  }

  /** The hover for a canonical address: nothing when no range of its map holds it. */
  function HoverFor(maps: Maps, c: Canonical): Option<string>
    requires !c.NoMatch?
  {
    match Find(MapFor(maps, c), c.addr)
    case None => None
    case Some(r) => Some(HoverMarkdown(r, Width(c), Region(c)))
  }

  /** The hover for a trimmed word: nothing without a token or without a range that holds it. */
  function HoverOfWord(word: string, mayBeRom: bool, maps: Maps): Option<string> {
    var c := Resolve(word, mayBeRom);
    if c.NoMatch? then None else HoverFor(maps, c)
  }

  /** The hover for `window`. */
  function HoverText(window: string, realRange: nat, maps: Maps): Option<string> {
    var t := Token(window, realRange);
    HoverOfWord(t.0, t.1, maps)
  }

  /** The hover for `window` with the suffix test as written. */
  function HoverTextAsWritten(window: string, realRange: nat, maps: Maps): Option<string> {
    var t := TokenAsWritten(window, realRange);
    HoverOfWord(t.0, t.1, maps)
  }

  // ---------------------------------------------------------------------------
  // The provider, step by step
  // ---------------------------------------------------------------------------

  /**
   * The fall-through `switch` on the digit count and the final parse: pads
   * two digits to four, prefixes `7E` up to $1FFF, stops at a register or
   * prefixes `00` for ROM, then calls it ROM when the first digit is `0`.
   */
  method SwitchOnLength(digits: string, mayBeRom: bool) returns (address: nat, isrom: bool, isregister: bool)
    requires IsHexString(digits) && (|digits| == 2 || |digits| == 4 || |digits| == 6)
    ensures Classify(digits, mayBeRom)
            == if isregister then Register(address) else if isrom then Rom(address) else Ram(address)
    ensures !(isrom && isregister)
  {
    var v := HexValue(digits);
    var realAddress := digits;
    var length := |realAddress|;
    isrom := false;
    isregister := false;
    if length == 2 {
      realAddress := "00" + realAddress;
      ZeroPrefixKeepsValue(digits);
    }
    if length == 2 || length == 4 {
      assert |realAddress| == 4 && IsHexString(realAddress) && HexValue(realAddress) == v;
      ParseHexIntOfHexString(realAddress);
      if ParseHexInt(realAddress).value <= 0x1FFF {
        BankPrefixValue(realAddress);
        realAddress := "7E" + realAddress;
      } else {
        isregister := !mayBeRom;
        if !isregister {
          ZeroPrefixKeepsValue(realAddress);
          realAddress := "00" + realAddress;
        }
      }
    }
    if !isregister {
      assert |realAddress| == 6 && IsHexString(realAddress);
      LeadingZeroOfSix(realAddress);
      if realAddress[0] == '0' {
        isrom := true;
      }
    }
    ParseHexIntOfHexString(realAddress);
    address := ParseHexInt(realAddress).value;
  }

  /** The two branches that build the Markdown. */
  method RenderHover(val: AddressRange, isrom: bool, isregister: bool) returns (text: string)
    requires val.begin.Int? && val.end.Int?
    ensures text == HoverMarkdown(val, if isregister then 4 else 6, if isrom then "rom" else "ram")
  {
    var width := if isregister then 4 else 6;
    var region := if isrom then "rom" else "ram";
    var wide := val.addr.size.Int? && val.addr.size.value > 1;
    if val.addr.details.None? {
      text := if wide then val.addr.description + LineBreak + Boundary(val, width)
              else val.addr.description;
    } else {
      var links := CollectLinks(val.addr.details.value, region);
      var fullDetails := Join(links, LineBreak);
      text := if wide then val.addr.description + LineBreak + fullDetails + LineBreak + Boundary(val, width)
              else val.addr.description + LineBreak + fullDetails;
    }
  }

  /** The loop that pushes one detail link per entry. */
  method CollectLinks(entries: seq<(string, string)>, region: string) returns (links: seq<string>)
    ensures links == Links(entries, region)
  {
    links := [];
    for i := 0 to |entries|
      invariant links == Links(entries[..i], region)
    {
      assert entries[..i + 1][..i] == entries[..i];
      links := links + [Link(entries[i], region)];
    }
    assert entries[..|entries|] == entries;
  }

  /** Trims the text, drops an index suffix, and trims again. */
  method ExtractWord(window: string, realRange: nat) returns (word: string, mayBeRom: bool)
    ensures (word, mayBeRom) == Token(window, realRange)
  {
    word := TrimEnd(window);
    mayBeRom := false;
    if (EndsWith(word, ",x") || EndsWith(word, ",y")) && realRange != |word| - 2 {
      word := DropLastTwo(word);
      mayBeRom := true;
    }
    word := TrimEnd(word);
  }

  /**
   * `provideHover` once the editor has supplied the word's length and the
   * text from two characters before it to two characters after it.
   */
  method ProvideHover(window: string, realRange: nat, maps: Maps) returns (hover: Option<string>)
    ensures hover == HoverText(window, realRange, maps)
  {
    var word, mayBeRom := ExtractWord(window, realRange);
    hover := HoverOfToken(word, mayBeRom, maps);
  }

  /** The match, the digit-count test, the `switch` and the lookup. */
  method HoverOfToken(word: string, mayBeRom: bool, maps: Maps) returns (hover: Option<string>)
    ensures hover == HoverOfWord(word, mayBeRom, maps)
  {
    var m := MatchIndex(word, 0);
    if m.None? {
      return None;
    }
    var realAddress := Group(word, m.value);
    if |realAddress| % 2 != 0 {
      return None;
    }
    var address, isrom, isregister := SwitchOnLength(realAddress, mayBeRom);
    hover := LookUp(maps, address, isrom, isregister);
  }

  /** The search of the map the flags select, and the Markdown for the range found. */
  method LookUp(maps: Maps, address: nat, isrom: bool, isregister: bool) returns (hover: Option<string>)
    requires !(isrom && isregister)
    ensures hover == HoverFor(maps, if isregister then Register(address) else if isrom then Rom(address) else Ram(address))
  {
    ghost var c := if isregister then Register(address) else if isrom then Rom(address) else Ram(address);
    var val: Option<AddressRange>;
    if isregister {
      val := Find(maps.regs, address);
    } else if isrom {
      val := Find(maps.rom, address);
    } else {
      val := Find(maps.ram, address);
    }
    assert val == Find(MapFor(maps, c), c.addr);
    if val.None? {
      return None;
    }
    var text := RenderHover(val.value, isrom, isregister);
    hover := Some(text);
  }

  // ---------------------------------------------------------------------------
  // Lemmas
  // ---------------------------------------------------------------------------

  /** Two leading zeros leave the value alone. */
  lemma ZeroPrefixKeepsValue(s: string)
    requires IsHexString(s)
    ensures IsHexString("00" + s) && HexValue("00" + s) == HexValue(s)
  {
    HexValueAppend("00", s);
  }

  /** Prefixing `7E` to four digits puts them in bank 7E. */
  lemma BankPrefixValue(s: string)
    requires IsHexString(s) && |s| == 4
    ensures IsHexString("7E" + s) && HexValue("7E" + s) == 0x7E0000 + HexValue(s)
    ensures ("7E" + s)[0] == '7'
  {
    HexValueAppend("7E", s);
    assert Pow16(4) == 0x10000;
  }
}
