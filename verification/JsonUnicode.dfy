/**
 What \u escapes append: well-formed UTF-8 for the scalar values of the UTF-16
 units they spell, except for the surrogate pairs whose arithmetic is wrong.
 */
module JsonUnicode {
  import opened Bytes
  import opened Options
  import opened JsonText
  import opened JsonParse
  import opened Sequences

  // ---------- UTF-8 (RFC 3629, section 4) ----------

  predicate IsScalar(r: int) {
    0 <= r <= 0x10FFFF && !(0xD800 <= r < 0xE000)
  }

  predicate IsTailByte(c: Byte) {
    0x80 <= c <= 0xBF
  }

  /** Six more bits from a tail byte. */
  function Append6(high: int, c: Byte): int {
    high * 64 + (c as int - 0x80)
  }

  /** The first character of a well-formed text and the length of its encoding. */
  function DecodeOne(s: seq<Byte>): (r: Option<(int, nat)>)
    ensures r.Some? ==> 1 <= r.value.1 <= |s|
  {
    if s == [] then None
    else if s[0] <= 0x7F then Some((s[0], 1))
    else if |s| >= 2 && 0xC2 <= s[0] <= 0xDF && IsTailByte(s[1]) then
      Some((Append6(s[0] as int - 0xC0, s[1]), 2))
    else if |s| >= 3 && 0xE0 <= s[0] <= 0xEF && IsTailByte(s[1]) && IsTailByte(s[2])
            && (s[0] == 0xE0 ==> s[1] >= 0xA0) && (s[0] == 0xED ==> s[1] <= 0x9F) then
      Some((Append6(Append6(s[0] as int - 0xE0, s[1]), s[2]), 3))
    else if |s| >= 4 && 0xF0 <= s[0] <= 0xF4 && IsTailByte(s[1]) && IsTailByte(s[2]) && IsTailByte(s[3])
            && (s[0] == 0xF0 ==> s[1] >= 0x90) && (s[0] == 0xF4 ==> s[1] <= 0x8F) then
      Some((Append6(Append6(Append6(s[0] as int - 0xF0, s[1]), s[2]), s[3]), 4))
    else None
  }

  /** The characters of a text, or None when it is not well-formed. */
  function DecodeUtf8(s: seq<Byte>): Option<seq<int>> {
    if s == [] then Some([])
    else
      match DecodeOne(s)
      case None => None
      case Some((r, n)) =>
        match DecodeUtf8(s[n..])
        case None => None
        case Some(rs) => Some([r] + rs)
  }

  lemma TwoBytesDecode(r: int, rest: seq<Byte>)
    requires 0x7F < r <= 0x7FF
    ensures DecodeOne(EncodeUtf8(r) + rest) == Some((r, 2))
  {
    assert r == Append6(r / 64, 0x80 + r % 64);
  }

  lemma ThreeBytesDecode(r: int, rest: seq<Byte>)
    requires 0x7FF < r <= 0xFFFF && IsScalar(r)
    ensures DecodeOne(EncodeUtf8(r) + rest) == Some((r, 3))
  {
    assert r / 64 == Append6(r / 4096, 0x80 + r / 64 % 64);
    assert r == Append6(r / 64, 0x80 + r % 64);
  }

  lemma FourBytesDecode(r: int, rest: seq<Byte>)
    requires 0xFFFF < r <= 0x10FFFF
    ensures DecodeOne(EncodeUtf8(r) + rest) == Some((r, 4))
  {
    assert r / 4096 == Append6(r / 262144, 0x80 + r / 4096 % 64);
    assert r / 64 == Append6(r / 4096, 0x80 + r / 64 % 64);
    assert r == Append6(r / 64, 0x80 + r % 64);
  }

  lemma EncodeDecodesOne(r: int, rest: seq<Byte>)
    requires IsScalar(r)
    ensures DecodeOne(EncodeUtf8(r) + rest) == Some((r, |EncodeUtf8(r)|))
  {
    if 0x7F < r <= 0x7FF {
      TwoBytesDecode(r, rest);
    } else if 0x7FF < r <= 0xFFFF {
      ThreeBytesDecode(r, rest);
    } else if 0xFFFF < r {
      FourBytesDecode(r, rest);
    }
  }

  predicate AllScalars(rs: seq<int>) {
    forall i :: 0 <= i < |rs| ==> IsScalar(rs[i])
  }

  function EncodeAll(rs: seq<int>): seq<Byte>
    requires AllScalars(rs)
  {
    if rs == [] then [] else EncodeUtf8(rs[0]) + EncodeAll(rs[1..])
  }

  lemma DecodeStep(x: seq<Byte>, r: int, rest: seq<Byte>, rs: seq<int>)
    requires DecodeOne(x + rest) == Some((r, |x|)) && DecodeUtf8(rest) == Some(rs)
    ensures DecodeUtf8(x + rest) == Some([r] + rs)
  {
    assert (x + rest)[|x|..] == rest;
  }

  /** Encoded scalars are well-formed and decode to themselves. */
  lemma {:induction false} EncodeAllDecodes(rs: seq<int>)
    requires AllScalars(rs)
    ensures DecodeUtf8(EncodeAll(rs)) == Some(rs)
  {
    if rs == [] {
    } else {
      EncodeAllDecodes(rs[1..]);
      EncodeDecodesOne(rs[0], EncodeAll(rs[1..]));
      DecodeStep(EncodeUtf8(rs[0]), rs[0], EncodeAll(rs[1..]), rs[1..]);
      assert rs == [rs[0]] + rs[1..];
    }
  }

  // ---------- UTF-16 ----------

  /** The value of a surrogate pair (RFC 8259, section 7, by way of UTF-16). */
  function PairValue(lead: int, trail: int): int {
    0x10000 + (lead - 0xD800) * 1024 + (trail - 0xDC00)
  }

  /** Combining by `|` gives the pair's value exactly when bit 0x40 of the lead's
      offset is clear; otherwise it is 0x10000 too small. */
  lemma CombineExactly(lead: int, trail: int)
    requires IsLead(lead) && IsTrail(trail)
    ensures Combine(lead, trail) == PairValue(lead, trail) <==> (lead - 0xD800) / 64 % 2 == 0
    ensures (lead - 0xD800) / 64 % 2 == 1 ==> Combine(lead, trail) == PairValue(lead, trail) - 0x10000
  {
  }

  /** A pair that is decoded wrongly: U+20000 comes out as U+10000. */
  lemma CombineWrong()
    ensures IsLead(0xD840) && IsTrail(0xDC00)
    ensures PairValue(0xD840, 0xDC00) == 0x20000 && Combine(0xD840, 0xDC00) == 0x10000
  {
  }

  predicate IsPair(units: seq<int>, i: nat) {
    i + 1 < |units| && IsLead(units[i]) && IsTrail(units[i + 1])
  }

  /** A unit that is not part of a pair: U+FFFD stands for a surrogate. */
  function LoneValue(unit: int): int {
    if IsLead(unit) || IsTrail(unit) then 0xFFFD else unit
  }

  /** The scalars of UTF-16 units, by the standard. */
  function StandardScalars(units: seq<int>): seq<int>
    decreases |units|
  {
    if units == [] then []
    else if IsPair(units, 0) then [PairValue(units[0], units[1])] + StandardScalars(units[2..])
    else [LoneValue(units[0])] + StandardScalars(units[1..])
  }

  /** The same with the pairs combined as the parser does. */
  function ParsedScalars(units: seq<int>): seq<int>
    decreases |units|
  {
    if units == [] then []
    else if IsPair(units, 0) then [Combine(units[0], units[1])] + ParsedScalars(units[2..])
    else [LoneValue(units[0])] + ParsedScalars(units[1..])
  }

  predicate Units(units: seq<int>) {
    forall i :: 0 <= i < |units| ==> 0 <= units[i] < 0x10000
  }

  /** The lead of every pair has bit 0x40 of its offset clear. */
  predicate PairsCombine(units: seq<int>)
    decreases |units|
  {
    if units == [] then true
    else if IsPair(units, 0) then (units[0] - 0xD800) / 64 % 2 == 0 && PairsCombine(units[2..])
    else PairsCombine(units[1..])
  }

  /** The parser agrees with the standard exactly when every surrogate pair has
      bit 0x40 of its lead's offset clear. */
  lemma {:induction false} ScalarsAgreeExactly(units: seq<int>)
    ensures |ParsedScalars(units)| == |StandardScalars(units)|
    ensures ParsedScalars(units) == StandardScalars(units) <==> PairsCombine(units)
    decreases |units|
  {
    if units != [] {
      var tail := if IsPair(units, 0) then units[2..] else units[1..];
      ScalarsAgreeExactly(tail);
      if IsPair(units, 0) {
        CombineExactly(units[0], units[1]);
      }
      assert ParsedScalars(units)[1..] == ParsedScalars(tail) && StandardScalars(units)[1..] == StandardScalars(tail);
    }
  }

  lemma {:induction false} ParsedScalarsAreScalars(units: seq<int>)
    requires Units(units)
    ensures AllScalars(ParsedScalars(units))
    decreases |units|
  {
    if units != [] {
      ParsedScalarsAreScalars(if IsPair(units, 0) then units[2..] else units[1..]);
    }
  }

  // ---------- The parser ----------

  /** `text` is the escapes of `units`, each \u and four hexadecimal digits. */
  predicate Spells(text: seq<Byte>, units: seq<int>) {
    if units == [] then text == []
    else
      && |text| >= 6 && text[0] == BACKSLASH && text[1] == 117
      && Parse4Hex(text[2..6]) == Good(units[0], [])
      && Spells(text[6..], units[1..])
  }

  lemma Parse4HexPrefix(s: seq<Byte>)
    requires Parse4Hex(s).Good?
    ensures Parse4Hex(s[..4]) == Good(Parse4Hex(s).value, [])
  {
  }

  /** `s` begins with the escapes of `units`, and `rest` follows. */
  predicate Reads(s: seq<Byte>, units: seq<int>, rest: seq<Byte>) {
    |rest| <= |s| && Spells(s[..|s| - |rest|], units) && s[|s| - |rest|..] == rest
  }

  /** `value` is `out` and the scalars of `units` in UTF-8. */
  predicate Appends(units: seq<int>, out: seq<Byte>, value: seq<Byte>) {
    && Units(units) && AllScalars(ParsedScalars(units))
    && value == out + EncodeAll(ParsedScalars(units))
  }

  /** A lead at the end has no second escape it could pair with. */
  predicate Stops(units: seq<int>, rest: seq<Byte>)
    requires units != []
  {
    IsLead(units[|units| - 1]) ==> |rest| < 2 || rest[0] != BACKSLASH || rest[1] != 117
  }

  lemma ReadsNothing(s: seq<Byte>)
    ensures Reads(s, [], s)
  {
    assert s[..|s| - |s|] == [] && s[|s| - |s|..] == s;
  }

  lemma ReadsOne(unit: int, s: seq<Byte>, units: seq<int>, rest: seq<Byte>)
    requires |s| >= 6 && s[0] == BACKSLASH && s[1] == 117 && Parse4Hex(s[2..]) == Good(unit, s[6..])
    requires Reads(s[6..], units, rest)
    ensures Reads(s, [unit] + units, rest)
  {
    var n := |s| - |rest|;
    Parse4HexPrefix(s[2..]);
    assert s[2..][..4] == s[2..6] == s[..n][2..6];
    assert s[..n][6..] == s[6..][..n - 6];
    assert ([unit] + units)[1..] == units;
    assert s[6..][n - 6..] == s[n..];
  }

  /** A unit that ends the escape: not a lead, or a lead without a second escape. */
  lemma AppendsLast(unit: int, out: seq<Byte>)
    requires 0 <= unit < 0x10000
    ensures Appends([unit], out, out + EncodeUtf8(LoneValue(unit)))
  {
    var scalars := [LoneValue(unit)];
    assert !IsPair([unit], 0) && [unit][1..] == [];
    assert ParsedScalars([unit]) == scalars;
    assert scalars[1..] == [];
    assert EncodeAll(scalars) == EncodeUtf8(LoneValue(unit)) + [];
  }

  lemma AppendsPair(lead: int, trail: int, out: seq<Byte>)
    requires IsLead(lead) && IsTrail(trail)
    ensures Appends([lead, trail], out, out + EncodeUtf8(Combine(lead, trail)))
  {
    var scalars := [Combine(lead, trail)];
    assert IsPair([lead, trail], 0) && [lead, trail][2..] == [];
    assert ParsedScalars([lead, trail]) == scalars;
    assert scalars[1..] == [];
    assert EncodeAll(scalars) == EncodeUtf8(Combine(lead, trail)) + [];
  }

  lemma ScalarsAfterLone(lead: int, units: seq<int>)
    requires IsLead(lead) && units != [] && !IsTrail(units[0])
    ensures ParsedScalars([lead] + units) == [0xFFFD] + ParsedScalars(units)
  {
    assert ([lead] + units)[1..] == units;
  }

  /** A lead that is not followed by a trail becomes U+FFFD. */
  lemma AppendsLone(lead: int, units: seq<int>, out: seq<Byte>, value: seq<Byte>)
    requires IsLead(lead) && units != [] && !IsTrail(units[0])
    requires Appends(units, out + REPLACEMENT, value)
    ensures Appends([lead] + units, out, value)
  {
    var scalars := ParsedScalars(units);
    ScalarsAfterLone(lead, units);
    EncodeReplacement(scalars);
    Assoc(out, REPLACEMENT, EncodeAll(scalars));
  }

  lemma EncodeReplacement(scalars: seq<int>)
    requires AllScalars(scalars)
    ensures AllScalars([0xFFFD] + scalars) && EncodeAll([0xFFFD] + scalars) == REPLACEMENT + EncodeAll(scalars)
  {
    assert ([0xFFFD] + scalars)[1..] == scalars;
  }

  lemma LastUnit(first: int, s: seq<Byte>, out: seq<Byte>)
    requires 0 <= first < 0x10000
    requires !IsLead(first) || |s| < 2 || s[0] != BACKSLASH || s[1] != 117
    ensures UnicodeLoop(first, s, out) == Good(out + EncodeUtf8(LoneValue(first)), s)
  {
    assert EncodeUtf8(0xFFFD) == REPLACEMENT;
  }

  lemma NextUnit(first: int, second: int, s: seq<Byte>, out: seq<Byte>)
    requires IsLead(first) && |s| >= 2 && s[0] == BACKSLASH && s[1] == 117
    requires UnicodeLoop(first, s, out).Good? && (Parse4Hex(s[2..]).Good? ==> second == Parse4Hex(s[2..]).value)
    ensures |s| >= 6 && 0 <= second < 0x10000 && Parse4Hex(s[2..]) == Good(second, s[6..])
    ensures UnicodeLoop(first, s, out) ==
            if IsTrail(second) then Good(out + EncodeUtf8(Combine(first, second)), s[6..])
            else UnicodeLoop(second, s[6..], out + REPLACEMENT)
  {
    assert Parse4Hex(s[2..]).Good?;
    assert s[2..][4..] == s[6..];
  }

  /** The loop reads more units, `first` being the one already read. */
  lemma {:induction false} LoopMeaning(first: int, s: seq<Byte>, out: seq<Byte>) returns (units: seq<int>)
    requires 0 <= first < 0x10000 && UnicodeLoop(first, s, out).Good?
    ensures Reads(s, units, UnicodeLoop(first, s, out).rest)
    ensures Appends([first] + units, out, UnicodeLoop(first, s, out).value)
    ensures Stops([first] + units, UnicodeLoop(first, s, out).rest)
    decreases |s|
  {
    var r := UnicodeLoop(first, s, out);
    if !IsLead(first) || |s| < 2 || s[0] != BACKSLASH || s[1] != 117 {
      units := [];
      LastUnit(first, s, out);
      ReadsNothing(s);
      AppendsLast(first, out);
      assert [first] + units == [first];
    } else {
      var second := Parse4Hex(s[2..]).value;
      NextUnit(first, second, s, out);
      if IsTrail(second) {
        units := [second];
        ReadsNothing(s[6..]);
        ReadsOne(second, s, [], s[6..]);
        AppendsPair(first, second, out);
        assert [first] + units == [first, second];
      } else {
        var more := LoopMeaning(second, s[6..], out + REPLACEMENT);
        units := [second] + more;
        ReadsOne(second, s, more, r.rest);
        AppendsLone(first, units, out, r.value);
      }
    }
  }

  /** Main result: an accepted escape sequence spells UTF-16 units, as many as the
      pairs need, and appends their scalars (U+FFFD for a lone surrogate) as UTF-8 that decodes to exactly those
      scalars; they are the standard's exactly when the pairs combine. */
  lemma EscapeMeaning(s: seq<Byte>, out: seq<Byte>) returns (units: seq<int>)
    requires ParseUnicode(s, out).Good?
    ensures units != [] && Reads([BACKSLASH, 117] + s, units, ParseUnicode(s, out).rest)
    ensures Stops(units, ParseUnicode(s, out).rest)
    ensures Appends(units, out, ParseUnicode(s, out).value)
    ensures DecodeUtf8(EncodeAll(ParsedScalars(units))) == Some(ParsedScalars(units))
    ensures ParsedScalars(units) == StandardScalars(units) <==> PairsCombine(units)
  {
    var first := Parse4Hex(s).value;
    var more := LoopMeaning(first, s[4..], out);
    units := [first] + more;
    var text := [BACKSLASH, 117] + s;
    assert text[2..] == s && text[6..] == s[4..];
    ReadsOne(first, text, more, ParseUnicode(s, out).rest);
    EncodeAllDecodes(ParsedScalars(units));
    ScalarsAgreeExactly(units);
  }
}
