/**
 * What the hover provider promises: the bounds and banks of the addresses a
 * token can name, how the text around an operand is read, which range a
 * hover shows, and that the printed boundaries read back as the addresses
 * they describe.
 */
module HoverProperties {
  import opened Wrappers
  import opened Numbers
  import opened Descriptors
  import opened Hover

  /**
   * Every address a token names fits in 24 bits; ROM addresses lie below
   * $100000 and RAM addresses at or above it; registers are $2000-$FFFF;
   * and only an odd digit count names nothing.
   */
  lemma CanonicalBounds(digits: string, mayBeRom: bool)
    requires IsHexString(digits) && 2 <= |digits| <= 6
    ensures Classify(digits, mayBeRom).NoMatch? <==> |digits| % 2 == 1
    ensures !Classify(digits, mayBeRom).NoMatch? ==> Classify(digits, mayBeRom).addr < 0x1000000
    ensures Classify(digits, mayBeRom).Rom? ==> Classify(digits, mayBeRom).addr < 0x100000
    ensures Classify(digits, mayBeRom).Ram? ==> Classify(digits, mayBeRom).addr >= 0x100000
    ensures Classify(digits, mayBeRom).Register? ==> 0x2000 <= Classify(digits, mayBeRom).addr < 0x10000
  {
    Pow16Grows(|digits|, 6);
    if |digits| <= 4 {
      Pow16Grows(|digits|, 4);
    }
    assert Pow16(4) == 0x10000;
    assert Pow16(6) == 0x1000000;
  }

  /** Two digits always name bank 7E RAM at their value. */
  lemma TwoDigitsAreRam(digits: string, mayBeRom: bool)
    requires IsHexString(digits) && |digits| == 2
    ensures Classify(digits, mayBeRom) == Ram(0x7E0000 + HexValue(digits))
  {
    assert Pow16(2) == 0x100;
  }

  /** Six digits name ROM exactly when the first one is `0`, and name their own value either way. */
  lemma SixDigitsRomIffLeadingZero(digits: string, mayBeRom: bool)
    requires IsHexString(digits) && |digits| == 6
    ensures Classify(digits, mayBeRom).Rom? <==> digits[0] == '0'
    ensures Classify(digits, mayBeRom).addr == HexValue(digits)
  {
    LeadingZeroOfSix(digits);
  }

  /**
   * Printing a canonical address the way the boundary line does and reading
   * the printed digits back as a plain (non-indexed) token gives the same
   * canonical address.
   */
  lemma PrintedAddressReadsBack(digits: string, mayBeRom: bool)
    requires IsHexString(digits) && 2 <= |digits| <= 6
    requires !Classify(digits, mayBeRom).NoMatch?
    ensures var c := Classify(digits, mayBeRom);
            var f := HexField(c.addr, Width(c));
            |f| == Width(c) && IsHexString(f) && Classify(f, false) == c
  {
    var c := Classify(digits, mayBeRom);
    CanonicalBounds(digits, mayBeRom);
    if c.Register? {
      RegisterReadsBack(c.addr);
    } else {
      SixDigitsReadBack(c.addr);
    }
  }

  lemma RegisterReadsBack(v: nat)
    requires 0x2000 <= v < 0x10000
    ensures |HexField(v, 4)| == 4 && IsHexString(HexField(v, 4))
    ensures Classify(HexField(v, 4), false) == Register(v)
  {
    assert Pow16(4) == 0x10000;
    FieldOfWidth(v, 4);
    ClassifyOfValue(HexField(v, 4), v, false);
  }

  lemma SixDigitsReadBack(v: nat)
    requires v < 0x1000000
    ensures |HexField(v, 6)| == 6 && IsHexString(HexField(v, 6))
    ensures Classify(HexField(v, 6), false) == if v < 0x100000 then Rom(v) else Ram(v)
  {
    assert Pow16(6) == 0x1000000;
    FieldOfWidth(v, 6);
    ClassifyOfValue(HexField(v, 6), v, false);
  }

  /** `Classify` depends on the digits only through their count and their value. */
  lemma ClassifyOfValue(digits: string, v: nat, mayBeRom: bool)
    requires IsHexString(digits) && (|digits| == 4 || |digits| == 6) && HexValue(digits) == v
    ensures |digits| == 6 ==> Classify(digits, mayBeRom) == if v < 0x100000 then Rom(v) else Ram(v)
    ensures |digits| == 4 && 0x2000 <= v ==> Classify(digits, mayBeRom) == if mayBeRom then Rom(v) else Register(v)
  {
  }

  /** A plain operand: the text after the four digits is neither white space nor an index suffix. */
  predicate PlainTail(t: string) {
    |t| == 2 && !IsHexDigit(t[0]) && !IsJsWhitespace(t[1]) && t != ",x" && t != ",y"
  }

  /** The leftmost token of ` $dddd...` is the four digits, whatever non-digit follows them. */
  lemma TokenAfterDollar(digits: string, t: string)
    requires IsHexString(digits) && |digits| == 4
    requires t == [] || !IsHexDigit(t[0])
    ensures Resolve(" $" + digits + t, false) == Classify(digits, false)
    ensures Resolve(" $" + digits + t, true) == Classify(digits, true)
  {
    var w := " $" + digits + t;
    assert w[2..6] == digits;
    HexRunExact(w, 2, 4);
    assert MatchesAt(w, 0);
    assert Group(w, 0) == digits;
  }

  /** The window of a plain four-digit operand needs no trimming. */
  lemma PlainWindowUntrimmed(digits: string, t: string)
    requires IsHexString(digits) && |digits| == 4 && PlainTail(t)
    ensures TrimEnd(" $" + digits + t) == " $" + digits + t
    ensures !EndsWith(" $" + digits + t, ",x") && !EndsWith(" $" + digits + t, ",y")
  {
    var w := " $" + digits + t;
    assert w[|w| - 2..] == t;
  }

  /**
   * With the intended suffix test, a four-digit operand followed by a
   * character that is not an index suffix is read as a plain operand.
   */
  lemma PlainOperand(digits: string, t: string)
    requires IsHexString(digits) && |digits| == 4 && PlainTail(t)
    ensures Canonicalise(" $" + digits + t, 4) == Classify(digits, false)
  {
    PlainWindowUntrimmed(digits, t);
    TokenAfterDollar(digits, t);
  }

  /** An indexed four-digit operand `$dddd,x` or `$dddd,y` may be ROM. */
  lemma IndexedOperand(digits: string, index: char)
    requires IsHexString(digits) && |digits| == 4 && (index == 'x' || index == 'y')
    ensures Canonicalise(" $" + digits + [',', index], 4) == Classify(digits, true)
  {
    var w := " $" + digits + [',', index];
    assert TrimEnd(w) == w;
    assert w[|w| - 2..] == [',', index];
    assert DropLastTwo(w) == " $" + digits + [];
    assert TrimEnd(" $" + digits + []) == " $" + digits + [];
    TokenAfterDollar(digits, []);
  }

  /**
   * The suffix test as written drops the two characters after any plain
   * operand and so reads it as possibly ROM: a register such as `$2100` in
   * `$2100+1` is shown as the ROM address $002100.
   */
  lemma AsWrittenMisreadsPlainOperand(digits: string, t: string)
    requires IsHexString(digits) && |digits| == 4 && PlainTail(t)
    requires HexValue(digits) > 0x1FFF
    ensures CanonicaliseAsWritten(" $" + digits + t, 4) == Rom(HexValue(digits))
    ensures Canonicalise(" $" + digits + t, 4) == Register(HexValue(digits))
  {
    var w := " $" + digits + t;
    PlainWindowUntrimmed(digits, t);
    assert DropLastTwo(w) == " $" + digits + [];
    assert TrimEnd(" $" + digits + []) == " $" + digits + [];
    TokenAfterDollar(digits, []);
    TokenAfterDollar(digits, t);
  }

  /** The concrete instance: hovering `2100` in `LDA $2100+1`. */
  lemma AsWrittenRegisterExample(window: string)
    requires window == " $2100+1"
    ensures CanonicaliseAsWritten(window, 4) == Rom(0x2100)
    ensures Canonicalise(window, 4) == Register(0x2100)
  {
    Value2100();
    assert PlainTail("+1");
    assert window == " $" + "2100" + "+1";
    AsWrittenMisreadsPlainOperand("2100", "+1");
  }

  /**
   * The whole provider on that window: as written it shows the ROM range
   * holding $002100, with the intended test the register range holding $2100.
   */
  lemma AsWrittenProviderExample(window: string, maps: Maps)
    requires window == " $2100+1"
    ensures HoverTextAsWritten(window, 4, maps) == HoverFor(maps, Rom(0x2100))
    ensures HoverText(window, 4, maps) == HoverFor(maps, Register(0x2100))
  {
    AsWrittenRegisterExample(window);
  }

  lemma Value2100()
    ensures IsHexString("2100") && HexValue("2100") == 0x2100
  {
    var d := "2100";
    assert d[..3][..2] == d[..2] && d[..2][..1] == d[..1] && d[..1][..0] == [];
    assert HexValue(d[..1]) == 2;
    assert HexValue(d[..2]) == 0x21;
    assert HexValue(d[..3]) == 0x210;
    assert d[..4] == d;
  }

  /** Hovering `0010` in `LDA $0010,x`: the index suffix does not matter below $2000, the token is bank 7E RAM. */
  lemma LowRamScenario(window: string)
    requires window == " $0010,x"
    ensures Canonicalise(window, 4) == Ram(0x7E0010)
  {
    var d := "0010";
    assert IsHexString(d);
    assert d[..3][..2] == d[..2] && d[..2][..1] == d[..1] && d[..1][..0] == [];
    assert HexValue(d[..1]) == 0;
    assert HexValue(d[..2]) == 0;
    assert HexValue(d[..3]) == 1;
    assert d[..4] == d;
    assert HexValue(d) == 0x10;
    assert window == " $" + d + [',', 'x'];
    IndexedOperand(d, 'x');
  }

  /** A hover always shows the first range of the searched map that holds the token's address. */
  lemma HoverShowsFirstRange(maps: Maps, c: Canonical, i: nat)
    requires !c.NoMatch? && i < |MapFor(maps, c)| && Contains(MapFor(maps, c)[i], c.addr)
    requires forall j :: 0 <= j < i ==> !Contains(MapFor(maps, c)[j], c.addr)
    ensures HoverFor(maps, c) == Some(HoverMarkdown(MapFor(maps, c)[i], Width(c), Region(c)))
  {
    FirstContainingUnique(MapFor(maps, c), c.addr, i);
  }

  /** No hover appears when no range of the searched map holds the address. */
  lemma NoRangeNoHover(maps: Maps, c: Canonical)
    requires !c.NoMatch?
    ensures HoverFor(maps, c).None? <==> forall j :: 0 <= j < |MapFor(maps, c)| ==> !Contains(MapFor(maps, c)[j], c.addr)
  {
  }

  /** Joining reads the same from the front: the first part, the separator, then the rest joined. */
  lemma {:induction false} JoinCons(p: string, rest: seq<string>, sep: string)
    requires rest != []
    ensures Join([p] + rest, sep) == p + sep + Join(rest, sep)
    decreases |rest|
  {
    var q := [p] + rest;
    if |rest| > 1 {
      var init := rest[..|rest| - 1];
      assert q[..|q| - 1] == [p] + init;
      JoinCons(p, init, sep);
      assert Join(q, sep) == (p + sep + Join(init, sep)) + sep + rest[|rest| - 1];
    } else {
      assert q[..|q| - 1] == [p];
    }
  }

  /**
   * The boundary line of a non-empty range reads back as its first and last
   * address, each printed in exactly `width` digits when it fits.
   */
  lemma {:induction false} BoundaryReadsBack(first: int, last: int, width: nat)
    requires width >= 1 && 0 <= first <= last < Pow16(width)
    ensures exists f: string, l: string ::
              BoundaryOf(first, last, width) == BoundaryLine(f, l)
              && |f| == width && |l| == width
              && ParseHexInt(f) == Int(first) && ParseHexInt(l) == Int(last)
  {
    FieldsOfWidth(first, last, width);
    var f, l := HexField(first, width), HexField(last, width);
    assert BoundaryOf(first, last, width) == BoundaryLine(f, l);
  }

  /** Both ends of a range that fits in `width` hex digits print in exactly `width` digits and parse back. */
  lemma FieldsOfWidth(b: int, e: int, width: nat)
    requires width >= 1 && 0 <= b <= e < Pow16(width)
    ensures |HexField(b, width)| == width && ParseHexInt(HexField(b, width)) == Int(b)
    ensures |HexField(e, width)| == width && ParseHexInt(HexField(e, width)) == Int(e)
  {
    FieldOfWidth(b, width);
    FieldOfWidth(e, width);
  }

  /** A number that fits in `width` hex digits prints in exactly `width` digits and parses back. */
  lemma FieldOfWidth(n: int, width: nat)
    requires width >= 1 && 0 <= n < Pow16(width)
    ensures |HexField(n, width)| == width && IsHexString(HexField(n, width))
    ensures HexValue(HexField(n, width)) == n && ParseHexInt(HexField(n, width)) == Int(n)
  {
    HexFieldReadsBack(n, width);
  }

  /**
   * A boundary field is upper-case hex that reads back as the number it
   * prints, at least `width` digits long, and exactly `width` long when the
   * number fits in that many digits.
   */
  lemma HexFieldReadsBack(n: int, width: nat)
    requires n >= 0
    ensures var s := HexField(n, width);
            IsHexString(s) && IsUpperHexString(s) && HexValue(s) == n && ParseHexInt(s) == Int(n) && |s| >= width
    ensures width >= 1 ==> (|HexField(n, width)| == width <==> n < Pow16(width))
  {
    var s := HexField(n, width);
    assert s == PadStart(ToHex(n), width, '0');
    PadStartKeepsValue(ToHex(n), width);
    PadStartKeepsUpper(ToHex(n), width);
    ParseHexIntOfHexString(s);
    if width >= 1 {
      ToHexLength(n, width);
    }
  }
}
