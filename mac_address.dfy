/**
 * The MAC address codec of index.js: `parse` turns a string or an integer
 * into the integer value of a 48-bit MAC address (EUI-48), `toString`
 * renders it as `XX:XX:XX:XX:XX:XX`, and the remaining functions read the
 * OUI, the I/G and U/L bits of the first octet (IEEE Std 802-2014, clause 8)
 * and the Docker bridge heuristics off that integer.
 *
 * Every exported function accepts any input `parse` accepts and throws what
 * `parse` throws, so each returns a `Result` whose error is `parse`'s.
 */
module MacAddress {
  import opened Wrappers
  import opened Strings
  import opened Numerals

  /** An argument of `parse`: a string, or a `bigint`/integral `number`. */
  datatype MacInput = Text(s: string) | Int(v: int)

  /** The one error `parse` throws: `Error("Invalid MAC address")`. */
  datatype Error = InvalidMacAddress

  const TwoTo24: nat := 0x100_0000
  const TwoTo32: nat := 0x1_0000_0000
  const TwoTo40: nat := 0x100_0000_0000
  const TwoTo41: nat := 0x200_0000_0000
  const TwoTo48: nat := 0x1_0000_0000_0000

  /** The top sixteen bits that mark a Docker bridge address, `02:42`. */
  const DockerPrefix: nat := 0x0242

  /**
   * The twelve characters the 17-character shortcut reads, at positions
   * 0, 1, 3, 4, 6, 7, 9, 10, 12, 13, 15 and 16: the two characters of each
   * group of `XX:XX:XX:XX:XX:XX`, whatever stands between the groups.
   */
  function Pick(s: string): (r: string)
    requires |s| == 17
    ensures |r| == 12
    ensures forall i :: 0 <= i < 12 ==> r[i] == s[i + i / 2]
  {
    [s[0], s[1], s[3], s[4], s[6], s[7], s[9], s[10], s[12], s[13], s[15], s[16]]
  }

  /** The number of characters of `s` that are not hex digits. */
  function NonHexCount(s: string): nat
  {
    if s == [] then 0 else (if IsHexDigit(s[0]) then 0 else 1) + NonHexCount(s[1..])
  }

  /** The hex digits of `s`, in order. */
  function HexChars(s: string): string
  {
    if s == [] then [] else (if IsHexDigit(s[0]) then [s[0]] else []) + HexChars(s[1..])
  }

  /** The strings of `groups` one after the other. */
  function Concat(groups: seq<string>): string
  {
    if groups == [] then [] else groups[0] + Concat(groups[1..])
  }

  /**
   * `s.split(/[^A-F0-9]/i)`: the text cut at every single character that is
   * not a hex digit, so that two separators in a row leave an empty group.
   * There is one group more than there are separators, every group is made
   * of hex digits, and together the groups hold exactly the hex digits of `s`.
   */
  function SplitNonHex(s: string): (groups: seq<string>)
    ensures |groups| == 1 + NonHexCount(s)
    ensures forall i :: 0 <= i < |groups| ==> AllHex(groups[i])
    ensures Concat(groups) == HexChars(s)
  {
    if s == [] then [[]]
    else
      var rest := SplitNonHex(s[1..]);
      if IsHexDigit(s[0]) then
        assert ([[s[0]] + rest[0]] + rest[1..])[1..] == rest[1..];
        [[s[0]] + rest[0]] + rest[1..]
      else
        assert ([[]] + rest)[1..] == rest;
        [[]] + rest
  }

  /** Text made of hex digits only is a single group. */
  lemma {:induction false} SplitNonHexAll(p: string)
    requires AllHex(p)
    ensures SplitNonHex(p) == [p]
    decreases |p|
  {
    if p != [] {
      SplitNonHexAll(p[1..]);
      assert [p[0]] + p[1..] == p;
    }
  }

  /** The hex digits before the first separator form the first group. */
  lemma {:induction false} SplitNonHexFirst(p: string, c: char, t: string)
    requires AllHex(p) && !IsHexDigit(c)
    ensures SplitNonHex(p + [c] + t) == [p] + SplitNonHex(t)
    decreases |p|
  {
    var s := p + [c] + t;
    if p == [] {
      assert s[1..] == t;
    } else {
      assert s[1..] == p[1..] + [c] + t;
      SplitNonHexFirst(p[1..], c, t);
      assert [p[0]] + p[1..] == p;
    }
  }

  /**
   * The string the loop at index.js:26 builds: every group padded on the
   * left with `0` to `width` characters, one after the other. JavaScript's
   * `padStart` truncates the fractional width `12 / n` it is given, so the
   * callers pass `12 / n` rounded down.
   */
  function PadJoin(groups: seq<string>, width: int): (str: string)
    ensures (forall i :: 0 <= i < |groups| ==> AllHex(groups[i])) ==> AllHex(str)
  {
    if groups == [] then []
    else
      var init := PadJoin(groups[..|groups| - 1], width);
      var last := PadStart(groups[|groups| - 1], width, '0');
      assert (forall i :: 0 <= i < |groups| ==> AllHex(groups[i])) ==> AllHex(init + last) by {
        if forall i :: 0 <= i < |groups| ==> AllHex(groups[i]) {
          assert forall i :: 0 <= i < |groups| - 1 ==> groups[..|groups| - 1][i] == groups[i];
          HexValuePad(groups[|groups| - 1], width);
          HexValueConcat(init, last);
        }
      }
      init + last
  }

  /** `parse(mac)` (index.js:6-31). */
  function Parse(input: MacInput): Result<int, Error>
  {
    match input
    case Int(v) => Ok(v)
    case Text(s) => ParseText(s)
  }

  /** `parse` on a string: the two shortcuts, the length check, then the general form. */
  function ParseText(s: string): Result<int, Error>
  {
    if |s| == 12 && HexPrefix(s).Some? then Ok(HexPrefix(s).value)
    else if |s| == 17 && HexPrefix(Pick(s)).Some? then Ok(HexPrefix(Pick(s)).value)
    else if |s| > 17 || |s| < 1 then Err(InvalidMacAddress)
    else
      var groups := SplitNonHex(s);
      var str := PadJoin(groups, 12 / |groups|);
      var parsed := HexPrefix(str);
      if |str| != 12 || parsed.None? then Err(InvalidMacAddress) else Ok(parsed.value)
  }

  /** The loop at index.js:25-26: each group padded to `width` and appended to `str`. */
  method PadGroups(octets: seq<string>, width: int) returns (str: string)
    ensures str == PadJoin(octets, width)
  {
    str := "";
    for i := 0 to |octets|
      invariant str == PadJoin(octets[..i], width)
    {
      assert octets[..i + 1][..i] == octets[..i];
      str := str + PadStart(octets[i], width, '0');
    }
    assert octets[..|octets|] == octets;
  }

  /** `parse(mac)` as index.js runs it, the padded groups appended one at a time. */
  method ParseMac(input: MacInput) returns (r: Result<int, Error>)
    ensures r == Parse(input)
  {
    if input.Int? {
      return Ok(input.v);
    }
    var mac := input.s;
    if |mac| == 12 {
      var number := HexPrefix(mac);
      if number.Some? {
        return Ok(number.value);
      }
    }
    if |mac| == 17 {
      var number := HexPrefix(Pick(mac));
      if number.Some? {
        return Ok(number.value);
      }
    }
    if |mac| > 17 || |mac| < 1 {
      return Err(InvalidMacAddress);
    }
    var octets := SplitNonHex(mac);
    var charPer := 12 / |octets|;
    var str := PadGroups(octets, charPer);
    var parsed := HexPrefix(str);
    if |str| != 12 || parsed.None? {
      return Err(InvalidMacAddress);
    }
    return Ok(parsed.value);
  }

  /** Integer input is returned unchanged, with no range check. */
  lemma ParseInt(v: int)
    ensures Parse(Int(v)) == Ok(v)
  {
  }

  /** Text that is empty or longer than 17 characters always fails. */
  lemma ParseBadLength(s: string)
    requires |s| == 0 || |s| > 17
    ensures Parse(Text(s)) == Err(InvalidMacAddress)
  {
  }

  /** Text parses to a value of at most twelve hex digits: a 48-bit address. */
  lemma ParseTextInRange(s: string)
    requires Parse(Text(s)).Ok?
    ensures 0 <= Parse(Text(s)).value < TwoTo48
  {
    Pow16Values();
    if |s| == 12 && HexPrefix(s).Some? {
      Pow16Monotone(|HexRun(s)|, 12);
    } else if |s| == 17 && HexPrefix(Pick(s)).Some? {
      Pow16Monotone(|HexRun(Pick(s))|, 12);
    } else {
      var groups := SplitNonHex(s);
      var str := PadJoin(groups, 12 / |groups|);
      assert |str| == 12;
      HexPrefixOfHex(str);
    }
  }

  /**
   * The 12-character shortcut: text of twelve characters that starts with a
   * hex digit is the value of its longest leading run of hex digits (all of
   * it when it is all hex digits), whatever follows the run.
   */
  lemma ParseTwelve(s: string)
    requires |s| == 12 && IsHexDigit(s[0])
    ensures Parse(Text(s)) == Ok(HexValue(HexRun(s)))
    ensures AllHex(s) ==> Parse(Text(s)) == Ok(HexValue(s))
  {
    if AllHex(s) {
      HexPrefixOfHex(s);
    }
  }

  /**
   * The 17-character shortcut: text of seventeen characters that starts
   * with a hex digit is read from the twelve group positions alone; the
   * five separator positions are never looked at.
   */
  lemma ParseSeventeen(s: string, t: string)
    requires |s| == 17 && IsHexDigit(s[0])
    requires |t| == 17 && Pick(t) == Pick(s)
    ensures Parse(Text(s)) == Ok(HexValue(HexRun(Pick(s))))
    ensures Parse(Text(t)) == Parse(Text(s))
    ensures AllHex(Pick(s)) ==> Parse(Text(s)) == Ok(HexValue(Pick(s)))
  {
    assert Pick(s)[0] == s[0];
    assert Pick(t)[0] == t[0];
    if AllHex(Pick(s)) {
      HexPrefixOfHex(Pick(s));
    }
  }

  /**
   * The general form, reached by text of 1 to 17 characters that neither
   * shortcut takes: the groups between single non-hex characters are padded
   * to `12 / n` rounded down (or left as they are when longer), and the
   * parse succeeds exactly when the result has twelve characters, giving
   * its hex value; otherwise it fails.
   */
  lemma ParseFallback(s: string)
    requires 1 <= |s| <= 17
    requires |s| == 12 || |s| == 17 ==> !IsHexDigit(s[0])
    ensures var groups := SplitNonHex(s);
            var str := PadJoin(groups, 12 / |groups|);
            && (Parse(Text(s)).Ok? <==> |str| == 12)
            && (|str| == 12 ==> Parse(Text(s)) == Ok(HexValue(str)))
            && (|str| != 12 ==> Parse(Text(s)) == Err(InvalidMacAddress))
  {
    assert |s| == 12 ==> HexPrefix(s).None?;
    assert |s| == 17 ==> HexPrefix(Pick(s)).None? by {
      if |s| == 17 {
        assert Pick(s)[0] == s[0];
      }
    }
    var groups := SplitNonHex(s);
    var str := PadJoin(groups, 12 / |groups|);
    assert ParseText(s) == if |str| != 12 || HexPrefix(str).None? then Err(InvalidMacAddress) else Ok(HexPrefix(str).value);
    if |str| == 12 {
      HexPrefixOfHex(str);
    }
  }

  /**
   * The value of groups read as digits of width `width` each: the address
   * the general form means when every group fits its width.
   */
  function GroupValue(groups: seq<string>, width: nat): nat
    requires forall i :: 0 <= i < |groups| ==> AllHex(groups[i])
  {
    if groups == [] then 0
    else GroupValue(groups[..|groups| - 1], width) * Pow16(width) + HexValue(groups[|groups| - 1])
  }

  /** Groups that fit their width pad to `n * width` digits whose value is the groups' value. */
  lemma {:induction false} PadJoinValue(groups: seq<string>, width: nat)
    requires forall i :: 0 <= i < |groups| ==> AllHex(groups[i]) && |groups[i]| <= width
    ensures |PadJoin(groups, width)| == |groups| * width
    ensures AllHex(PadJoin(groups, width))
    ensures HexValue(PadJoin(groups, width)) == GroupValue(groups, width)
    decreases |groups|
  {
    if groups != [] {
      var n := |groups|;
      var init := groups[..n - 1];
      assert forall i :: 0 <= i < n - 1 ==> init[i] == groups[i];
      PadJoinValue(init, width);
      var head := PadJoin(init, width);
      var last := PadStart(groups[n - 1], width, '0');
      assert PadJoin(groups, width) == head + last;
      assert |last| == width;
      HexValuePad(groups[n - 1], width);
      HexValueConcat(head, last);
      assert HexValue(head + last) == HexValue(head) * Pow16(width) + HexValue(last);
      assert GroupValue(groups, width) == GroupValue(init, width) * Pow16(width) + HexValue(groups[n - 1]);
      assert |head + last| == (n - 1) * width + width;
      MulPred(n, width);
    }
  }

  lemma MulPred(n: int, w: int)
    ensures (n - 1) * w + w == n * w
  {
  }

  /**
   * Separated text whose group count divides twelve and whose groups fit
   * `12 / n` digits each parses to the groups' value (`bc24.11cf.9a4b`,
   * `bc2411.cf9a4b`, `0:0:10:2:0:0` were it not taken by the shortcut).
   */
  lemma ParseGrouped(s: string)
    requires 1 <= |s| <= 17
    requires |s| == 12 || |s| == 17 ==> !IsHexDigit(s[0])
    requires 12 % |SplitNonHex(s)| == 0
    requires forall i :: 0 <= i < |SplitNonHex(s)| ==> |SplitNonHex(s)[i]| <= 12 / |SplitNonHex(s)|
    ensures Parse(Text(s)) == Ok(GroupValue(SplitNonHex(s), 12 / |SplitNonHex(s)|))
  {
    var groups := SplitNonHex(s);
    var width := 12 / |groups|;
    PadJoinValue(groups, width);
    DividesTwelve(|groups|);
    ParseFallback(s);
  }

  /** Two groups of six hex digits around one separator (`bc2411.cf9a4b`) read as the twelve digits. */
  lemma ParseHalves(p: string, c: char, q: string)
    requires |p| == 6 && |q| == 6 && AllHex(p) && AllHex(q) && !IsHexDigit(c)
    ensures AllHex(p + q)
    ensures Parse(Text(p + [c] + q)) == Ok(HexValue(p + q))
  {
    var s := p + [c] + q;
    var groups := [p, q];
    assert SplitNonHex(s) == groups by { PairGroups(p, c, q); }
    assert PadJoin(groups, 6) == p + q by {
      assert groups[..1] == [p];
      assert PadJoin([p], 6) == p by { assert [p][..0] == []; }
    }
    assert AllHex(p + q) by { HexValueConcat(p, q); }
    ParseFallback(s);
    HexPrefixOfHex(p + q);
  }

  /** Three groups of four hex digits between two separators (`bc24.11cf.9a4b`) read as the twelve digits. */
  lemma ParseQuads(p: string, c: char, q: string, d: char, r: string)
    requires |p| == 4 && |q| == 4 && |r| == 4 && AllHex(p) && AllHex(q) && AllHex(r)
    requires !IsHexDigit(c) && !IsHexDigit(d)
    ensures AllHex(p + q + r)
    ensures Parse(Text(p + [c] + q + [d] + r)) == Ok(HexValue(p + q + r))
  {
    var s := p + [c] + q + [d] + r;
    var groups := [p, q, r];
    assert SplitNonHex(s) == groups by { QuadGroups(p, c, q, d, r); }
    assert PadJoin(groups, 4) == p + q + r by { PadJoinThree(p, q, r, 4); }
    assert AllHex(p + q + r) by { HexValueConcat(p, q); HexValueConcat(p + q, r); }
    assert Parse(Text(s)) == Ok(HexValue(PadJoin(groups, 4))) by {
      assert |s| == 14 && 12 / |groups| == 4;
      ParseFallback(s);
    }
  }

  lemma PadJoinThree(p: string, q: string, r: string, w: nat)
    requires |p| == w && |q| == w && |r| == w
    ensures PadJoin([p, q, r], w) == p + q + r
  {
    assert [p, q, r][..2] == [p, q] && [p, q][..1] == [p] && [p][..0] == [];
    assert PadJoin([p], w) == p;
    assert PadJoin([p, q], w) == p + q;
  }

  lemma QuadGroups(p: string, c: char, q: string, d: char, r: string)
    requires AllHex(p) && AllHex(q) && AllHex(r) && !IsHexDigit(c) && !IsHexDigit(d)
    ensures SplitNonHex(p + [c] + q + [d] + r) == [p, q, r]
  {
    var t := q + [d] + r;
    assert p + [c] + q + [d] + r == p + [c] + t;
    SplitNonHexFirst(p, c, t);
    PairGroups(q, d, r);
    assert [p] + [q, r] == [p, q, r];
  }

  lemma PairGroups(p: string, c: char, q: string)
    requires AllHex(p) && AllHex(q) && !IsHexDigit(c)
    ensures SplitNonHex(p + [c] + q) == [p, q]
  {
    SplitNonHexFirst(p, c, q);
    SplitNonHexAll(q);
  }

  lemma DividesTwelve(n: int)
    requires n > 0 && 12 % n == 0
    ensures n * (12 / n) == 12
  {
  }

  /** `value.toString(16).toUpperCase().padStart(12, 0).match(/.{2}/g).join(":")` (index.js:39-40). */
  function Format(v: int): string
  {
    Join(Pairs(PadStart(JsHex(v), 12, '0')), ":")
  }

  /** `toString(macAddress)` (index.js:38-41). */
  function ToString(input: MacInput): (r: Result<string, Error>)
    ensures r.Err? <==> Parse(input).Err?
  {
    match Parse(input)
    case Err(e) => Err(e)
    case Ok(v) => Ok(Format(v))
  }

  /** Twelve digits written as six pairs joined by colons. */
  function Colons(d: string): (r: string)
    requires |d| == 12
  {
    d[0..2] + ":" + d[2..4] + ":" + d[4..6] + ":" + d[6..8] + ":" + d[8..10] + ":" + d[10..12]
  }

  /** Six pieces joined by `sep`. */
  lemma JoinSix(a: string, b: string, c: string, d: string, e: string, f: string, sep: string)
    ensures Join([a, b, c, d, e, f], sep) == a + sep + b + sep + c + sep + d + sep + e + sep + f
  {
    assert Join([e, f], sep) == e + sep + f by { assert [e, f][1..] == [f]; }
    assert Join([d, e, f], sep) == d + sep + Join([e, f], sep) by { assert [d, e, f][1..] == [e, f]; }
    assert Join([c, d, e, f], sep) == c + sep + Join([d, e, f], sep) by { assert [c, d, e, f][1..] == [d, e, f]; }
    assert Join([b, c, d, e, f], sep) == b + sep + Join([c, d, e, f], sep) by {
      assert [b, c, d, e, f][1..] == [c, d, e, f];
    }
    assert Join([a, b, c, d, e, f], sep) == a + sep + Join([b, c, d, e, f], sep) by {
      assert [a, b, c, d, e, f][1..] == [b, c, d, e, f];
    }
  }

  /** `match(/.{2}/g).join(":")` of twelve digits puts a colon after every pair but the last. */
  lemma PairsJoin(d: string)
    requires |d| == 12
    ensures Join(Pairs(d), ":") == Colons(d)
  {
    var q := Pairs(d);
    assert |q| == 6;
    assert q == [d[0..2], d[2..4], d[4..6], d[6..8], d[8..10], d[10..12]];
    JoinSix(d[0..2], d[2..4], d[4..6], d[6..8], d[8..10], d[10..12], ":");
  }

  /** The colon form of twelve digits, character by character. */
  lemma ColonsDisplay(d: string)
    requires |d| == 12
    ensures Colons(d) == [d[0], d[1], ':', d[2], d[3], ':', d[4], d[5], ':', d[6], d[7], ':', d[8], d[9], ':', d[10], d[11]]
  {
    var p1 := d[0..2] + ":";
    assert p1 == [d[0], d[1], ':'];
    var p2 := p1 + d[2..4] + ":";
    assert p2 == [d[0], d[1], ':', d[2], d[3], ':'];
    var p3 := p2 + d[4..6] + ":";
    assert p3 == [d[0], d[1], ':', d[2], d[3], ':', d[4], d[5], ':'];
    var p4 := p3 + d[6..8] + ":";
    assert p4 == [d[0], d[1], ':', d[2], d[3], ':', d[4], d[5], ':', d[6], d[7], ':'];
    var p5 := p4 + d[8..10] + ":";
    assert p5 == [d[0], d[1], ':', d[2], d[3], ':', d[4], d[5], ':', d[6], d[7], ':', d[8], d[9], ':'];
    assert Colons(d) == p5 + d[10..12];
  }

  /** The colon form of twelve digits: each pair of digits, then a colon, five times, then the last pair. */
  lemma ColonsLayout(d: string)
    requires |d| == 12
    ensures |Colons(d)| == 17
    ensures Pick(Colons(d)) == d
    ensures forall i :: 0 <= i < 17 ==> Colons(d)[i] == (if i % 3 == 2 then ':' else d[i - i / 3])
  {
    var f := Colons(d);
    ColonsDisplay(d);
    forall i | 0 <= i < 17
      ensures f[i] == (if i % 3 == 2 then ':' else d[i - i / 3])
    {
      var q, r := i / 3, i % 3;
      assert i == 3 * q + r && 0 <= q < 6 && 0 <= r < 3;
      assert r == 2 ==> f[i] == ':';
      assert r != 2 ==> f[i] == d[2 * q + r];
    }
  }

  /**
   * The rendering of a 48-bit value: its twelve upper-case hex digits,
   * zero-padded, as six pairs joined by colons; seventeen characters long.
   */
  lemma FormatDigits(v: int)
    requires 0 <= v < TwoTo48
    ensures Format(v) == Colons(Digits(v, 12))
    ensures |Format(v)| == 17
    ensures Pick(Format(v)) == Digits(v, 12)
    ensures forall i :: 0 <= i < 17 ==> Format(v)[i] == (if i % 3 == 2 then ':' else Digits(v, 12)[i - i / 3])
  {
    var d := Digits(v, 12);
    assert v < Pow16(12) by { Pow16Values(); }
    assert PadStart(JsHex(v), 12, '0') == d by { PadUpperHex(v, 12); }
    PairsJoin(d);
    ColonsLayout(d);
  }

  /** The rendering reads back to the value, through the 17-character shortcut. */
  lemma ParseFormat(v: int)
    requires 0 <= v < TwoTo48
    ensures Parse(Text(Format(v))) == Ok(v)
  {
    FormatDigits(v);
    Pow16Values();
    DigitsValue(v, 12);
    var f := Format(v);
    assert IsHexDigit(f[0]);
    ParseSeventeen(f, f);
  }

  /** `toString` is exactly seventeen characters, `XX:XX:XX:XX:XX:XX`, for any 48-bit value. */
  lemma ToStringShape(input: MacInput)
    requires Parse(input).Ok? && 0 <= Parse(input).value < TwoTo48
    ensures ToString(input).Ok?
    ensures |ToString(input).value| == 17
    ensures forall i :: 0 <= i < 17 ==> (ToString(input).value[i] == ':' <==> i % 3 == 2)
    ensures forall i :: 0 <= i < 17 && i % 3 != 2 ==> IsUpperHexDigit(ToString(input).value[i])
  {
    var v := Parse(input).value;
    FormatDigits(v);
    var d := Digits(v, 12);
    forall i | 0 <= i < 17 && i % 3 != 2
      ensures IsUpperHexDigit(Format(v)[i]) && Format(v)[i] != ':'
    {
      assert Format(v)[i] == d[i - i / 3];
    }
  }

  /** Rendering is idempotent: the canonical text of a text address renders as itself. */
  lemma ToStringIdempotent(input: MacInput)
    requires Parse(input).Ok? && 0 <= Parse(input).value < TwoTo48
    ensures ToString(Text(ToString(input).value)) == ToString(input)
  {
    ParseFormat(Parse(input).value);
  }

  /** Every text that parses renders to canonical text that parses to the same value. */
  lemma TextRoundTrip(s: string)
    requires Parse(Text(s)).Ok?
    ensures ToString(Text(s)).Ok?
    ensures Parse(Text(ToString(Text(s)).value)) == Parse(Text(s))
  {
    ParseTextInRange(s);
    ParseFormat(Parse(Text(s)).value);
  }

  /** `parse(parse(macAddress) >> 24n).toString(16).toUpperCase().padStart(6, 0)` (index.js:49). */
  function Oui(v: int): string
  {
    PadStart(JsHex(v / TwoTo24), 6, '0')
  }

  /** `getOui(macAddress)` (index.js:48-50). */
  function GetOui(input: MacInput): (r: Result<string, Error>)
    ensures r.Err? <==> Parse(input).Err?
  {
    match Parse(input)
    case Err(e) => Err(e)
    case Ok(v) => Ok(Oui(v))
  }

  /** The first `k` of the twelve digits of a 48-bit value are the value shifted right by the rest. */
  lemma LeadingDigits(v: int, k: nat)
    requires 0 <= v < TwoTo48 && k <= 12
    ensures HexValue(Digits(v, 12)[..k]) == v / Pow16(12 - k)
    ensures Digits(v, 12)[..k] == Digits(v / Pow16(12 - k), k)
  {
    assert v < Pow16(12) by { Pow16Values(); }
    LeadingDigitsOf(v, 12, k);
  }

  /** `LeadingDigits` at any width `n`. */
  lemma LeadingDigitsOf(v: nat, n: nat, k: nat)
    requires v < Pow16(n) && k <= n
    ensures HexValue(Digits(v, n)[..k]) == v / Pow16(n - k)
    ensures Digits(v, n)[..k] == Digits(v / Pow16(n - k), k)
  {
    var d := Digits(v, n);
    DigitsValue(v, n);
    HexValueSplit(d, k);
    var hi, lo := HexValue(d[..k]), HexValue(d[k..]);
    assert lo < Pow16(n - k);
    DivUnique(v, Pow16(n - k), hi, lo);
    assert AllUpperHex(d[..k]) by {
      forall i | 0 <= i < k ensures IsUpperHexDigit(d[..k][i]) { assert d[..k][i] == d[i]; }
    }
    DigitsOfValue(d[..k]);
  }

  /**
   * The OUI of a 48-bit value is six upper-case hex digits: the first six
   * digits of its rendering, whose value is the address shifted right by 24.
   */
  lemma OuiDigits(v: int)
    requires 0 <= v < TwoTo48
    ensures |Oui(v)| == 6 && AllUpperHex(Oui(v)) && AllHex(Oui(v))
    ensures HexValue(Oui(v)) == v / TwoTo24
    ensures Oui(v) == Digits(v, 12)[..6]
    ensures |Format(v)| == 17
    ensures Oui(v) == Format(v)[0..2] + Format(v)[3..5] + Format(v)[6..8]
  {
    var d := Digits(v, 12);
    var q := v / TwoTo24;
    assert Pow16(6) == TwoTo24 && q < Pow16(6) by { Pow16Values(); }
    assert d[..6] == Digits(q, 6) by { LeadingDigits(v, 6); }
    assert Oui(v) == Digits(q, 6) by { PadUpperHex(q, 6); }
    DigitsValue(q, 6);
    assert Format(v) == Colons(d) by { FormatDigits(v); }
    ColonsPrefix(d);
  }

  /** The first three pairs of the colon form, colons left out, are the first six digits. */
  lemma ColonsPrefix(d: string)
    requires |d| == 12
    ensures |Colons(d)| == 17
    ensures Colons(d)[0..2] == d[..2]
    ensures Colons(d)[0..2] + Colons(d)[3..5] + Colons(d)[6..8] == d[..6]
    ensures Colons(d)[..6] == d[0..2] + ":" + d[2..4] + ":"
  {
    var f := Colons(d);
    ColonsDisplay(d);
    assert f[0..2] == [d[0], d[1]] && f[3..5] == [d[2], d[3]] && f[6..8] == [d[4], d[5]];
    assert d[..6] == [d[0], d[1], d[2], d[3], d[4], d[5]] && d[..2] == [d[0], d[1]];
    assert f[..6] == [d[0], d[1], ':', d[2], d[3], ':'];
    assert d[0..2] + ":" + d[2..4] + ":" == [d[0], d[1], ':', d[2], d[3], ':'];
  }

  /** `!!(value & 0x10000000000n)`: the I/G bit, bit 40 (BigInt `&` reads two's complement bits). */
  predicate IsGroup(v: int)
  {
    (v / TwoTo40) % 2 == 1
  }

  /** `!!(value & 0x20000000000n)`: the U/L bit, bit 41. */
  predicate IsLocal(v: int)
  {
    (v / TwoTo41) % 2 == 1
  }

  /** `getMulticast(macAddress)` (index.js:57-59). */
  function GetMulticast(input: MacInput): (r: Result<bool, Error>)
    ensures r.Err? <==> Parse(input).Err?
  {
    match Parse(input)
    case Err(e) => Err(e)
    case Ok(v) => Ok(IsGroup(v))
  }

  /** `getLAA(macAddress)` (index.js:65-67). */
  function GetLAA(input: MacInput): (r: Result<bool, Error>)
    ensures r.Err? <==> Parse(input).Err?
  {
    match Parse(input)
    case Err(e) => Err(e)
    case Ok(v) => Ok(IsLocal(v))
  }

  /** The first octet of an address as its rendering writes it: the value of the first pair. */
  function FirstOctet(v: int): nat
    requires 0 <= v < TwoTo48
  {
    FormatDigits(v);
    HexValue(Format(v)[0..2])
  }

  /**
   * The I/G and U/L bits are the least and the next least significant bits
   * of the first octet, as EUI-48 places them.
   */
  lemma BitsOfFirstOctet(v: int)
    requires 0 <= v < TwoTo48
    ensures FirstOctet(v) == v / TwoTo40 && FirstOctet(v) < 256
    ensures GetMulticast(Int(v)) == Ok(FirstOctet(v) % 2 == 1)
    ensures GetLAA(Int(v)) == Ok((FirstOctet(v) / 2) % 2 == 1)
  {
    assert FirstOctet(v) == v / TwoTo40 && FirstOctet(v) < 256 by {
      var d := Digits(v, 12);
      assert Format(v)[0..2] == d[..2] by {
        FormatDigits(v);
        ColonsPrefix(d);
      }
      LeadingDigits(v, 2);
      Pow16Values();
    }
    assert (v / TwoTo40) / 2 == v / TwoTo41 by { DivDiv(v, TwoTo40, 2); }
  }

  /** `parsed >> 32n == 0x0242n`: the top sixteen bits are `02:42`. */
  predicate HasDockerPrefix(v: int)
  {
    v / TwoTo32 == DockerPrefix
  }

  /** `isDocker(macAddress)` (index.js:74-77). */
  function IsDocker(input: MacInput): (r: Result<bool, Error>)
    ensures r.Err? <==> Parse(input).Err?
  {
    match Parse(input)
    case Err(e) => Err(e)
    case Ok(v) => Ok(HasDockerPrefix(v))
  }

  /** A Docker address is locally administered and individual (unicast). */
  lemma DockerIsLocalUnicast(input: MacInput)
    requires IsDocker(input) == Ok(true)
    ensures GetLAA(input) == Ok(true)
    ensures GetMulticast(input) == Ok(false)
  {
    var v := Parse(input).value;
    assert v / TwoTo32 == 0x242;
    assert v == 0x242 * TwoTo32 + v % TwoTo32;
    assert v / TwoTo40 == 2 by {
      DivDiv(v, TwoTo32, 0x100);
      DivUnique(0x242, 0x100, 2, 0x42);
    }
    assert v / TwoTo41 == 1 by {
      DivDiv(v, TwoTo32, 0x200);
      DivUnique(0x242, 0x200, 1, 0x42);
    }
  }

  /** A 48-bit value is a Docker address exactly when its rendering starts with `02:42:`. */
  lemma DockerIffRendered(v: int)
    requires 0 <= v < TwoTo48
    ensures |Format(v)| == 17
    ensures IsDocker(Int(v)) == Ok(Format(v)[..6] == "02:42:")
  {
    assert Format(v) == Colons(Digits(v, 12)) by { FormatDigits(v); }
    DockerColons(Digits(v, 12));
    DockerDigits(v);
  }

  /** The colon form starts with `02:42:` exactly when the digits start with `0242`. */
  lemma DockerColons(d: string)
    requires |d| == 12
    ensures |Colons(d)| == 17
    ensures Colons(d)[..6] == "02:42:" <==> d[..4] == "0242"
  {
    ColonsPrefix(d);
    assert Colons(d)[..6] == [d[0], d[1], ':', d[2], d[3], ':'];
    assert d[..4] == [d[0], d[1], d[2], d[3]];
    assert "02:42:" == ['0', '2', ':', '4', '2', ':'] && "0242" == ['0', '2', '4', '2'];
  }

  /** The first four digits of a 48-bit value are `0242` exactly when its top sixteen bits are `0x0242`. */
  lemma DockerDigits(v: int)
    requires 0 <= v < TwoTo48
    ensures Digits(v, 12)[..4] == "0242" <==> HasDockerPrefix(v)
  {
    var top := v / TwoTo32;
    assert Digits(v, 12)[..4] == Digits(top, 4) && HexValue(Digits(top, 4)) == top by {
      LeadingDigits(v, 4);
      Pow16Values();
    }
    DockerPrefixDigits();
  }

  /** `0242` are the four digits of `DockerPrefix`. */
  lemma DockerPrefixDigits()
    ensures Digits(DockerPrefix, 4) == "0242" && HexValue("0242") == DockerPrefix
  {
    assert HexValue("0242") == DockerPrefix by {
      HexValueSplit("0242", 2);
      assert "0242"[..2] == "02" && "0242"[2..] == "42";
      assert Pow16(2) == 0x100;
    }
    DigitsOfValue("0242");
  }

  /**
   * The four octets of the low 32 bits, most significant first:
   * `[ip >> 24n, ip >> 16n & 0xFFn, ip >> 8n & 0xFFn, ip & 0xFFn]` with
   * `ip = value & 0xFFFFFFFFn`. Each is a byte and together they make up
   * the low 32 bits.
   */
  function Octets(v: int): (o: seq<nat>)
    ensures |o| == 4 && forall i :: 0 <= i < 4 ==> o[i] < 256
    ensures o[0] * 0x100_0000 + o[1] * 0x1_0000 + o[2] * 0x100 + o[3] == v % TwoTo32
  {
    var ip := v % TwoTo32;
    var a, b, c := ip / 0x100_0000, ip / 0x1_0000, ip / 0x100;
    assert a == b / 0x100 && b == c / 0x100 by {
      DivDiv(ip, 0x1_0000, 0x100);
      DivDiv(ip, 0x100, 0x100);
    }
    assert a < 256 by { DivUnique(ip, TwoTo32, 0, ip); DivDiv(ip, 0x100_0000, 0x100); }
    assert b == a * 0x100 + b % 0x100;
    assert c == b * 0x100 + c % 0x100;
    assert ip == c * 0x100 + ip % 0x100;
    [a, b % 0x100, c % 0x100, ip % 0x100]
  }

  /** The octets written in decimal and joined by dots (index.js:85). */
  function DottedQuad(v: int): string
  {
    var o := Octets(v);
    Join([Decimal(o[0]), Decimal(o[1]), Decimal(o[2]), Decimal(o[3])], ".")
  }

  /** `dockerIP(macAddress)` (index.js:83-86): no `isDocker` gate. */
  function DockerIP(input: MacInput): (r: Result<string, Error>)
    ensures r.Err? <==> Parse(input).Err?
  {
    match Parse(input)
    case Err(e) => Err(e)
    case Ok(v) => Ok(DottedQuad(v))
  }

  /**
   * The dotted quad splits at its dots into four decimal numerals, each of
   * a byte, that read back, most significant first, as the low 32 bits.
   */
  lemma DottedQuadOctets(v: int)
    ensures var parts := SplitOn(DottedQuad(v), ".");
            && |parts| == 4
            && (forall i :: 0 <= i < 4 ==> AllDecimal(parts[i]) && NoLeadingZero(parts[i]) && DecimalValue(parts[i]) < 256)
            && DecimalValue(parts[0]) * 0x100_0000 + DecimalValue(parts[1]) * 0x1_0000
               + DecimalValue(parts[2]) * 0x100 + DecimalValue(parts[3]) == v % TwoTo32
  {
    var o := Octets(v);
    var parts := [Decimal(o[0]), Decimal(o[1]), Decimal(o[2]), Decimal(o[3])];
    forall i | 0 <= i < 4 ensures '.' !in parts[i] {
      assert forall j :: 0 <= j < |parts[i]| ==> parts[i][j] != '.';
    }
    SplitOnJoin(parts, '.');
  }

  /** Four bytes read most significant first determine each other: base 256 is a positional system. */
  lemma BytesUnique(a: int, b: int, c: int, d: int, a': int, b': int, c': int, d': int)
    requires 0 <= a < 256 && 0 <= b < 256 && 0 <= c < 256 && 0 <= d < 256
    requires 0 <= a' < 256 && 0 <= b' < 256 && 0 <= c' < 256 && 0 <= d' < 256
    requires a * 0x100_0000 + b * 0x1_0000 + c * 0x100 + d == a' * 0x100_0000 + b' * 0x1_0000 + c' * 0x100 + d'
    ensures a == a' && b == b' && c == c' && d == d'
  {
    var x := a * 0x100_0000 + b * 0x1_0000 + c * 0x100 + d;
    DivUnique(x, 0x100, a * 0x1_0000 + b * 0x100 + c, d);
    DivUnique(x, 0x100, a' * 0x1_0000 + b' * 0x100 + c', d');
    var y := a * 0x1_0000 + b * 0x100 + c;
    DivUnique(y, 0x100, a * 0x100 + b, c);
    DivUnique(y, 0x100, a' * 0x100 + b', c');
    DivUnique(a * 0x100 + b, 0x100, a, b);
    DivUnique(a * 0x100 + b, 0x100, a', b');
  }

  /**
   * The text of `dockerIP` is fixed by what `DottedQuadOctets` states: any
   * text that splits at its dots into four decimal numerals without leading
   * zeros, of bytes that read back as the low 32 bits, is the dotted quad.
   */
  lemma DottedQuadDetermined(v: int, t: string)
    requires var parts := SplitOn(t, ".");
             && |parts| == 4
             && (forall i :: 0 <= i < 4 ==> AllDecimal(parts[i]) && NoLeadingZero(parts[i]) && DecimalValue(parts[i]) < 256)
             && DecimalValue(parts[0]) * 0x100_0000 + DecimalValue(parts[1]) * 0x1_0000
                + DecimalValue(parts[2]) * 0x100 + DecimalValue(parts[3]) == v % TwoTo32
    ensures t == DottedQuad(v)
  {
    var parts := SplitOn(t, ".");
    var o := Octets(v);
    var n0, n1, n2, n3 := DecimalValue(parts[0]), DecimalValue(parts[1]), DecimalValue(parts[2]), DecimalValue(parts[3]);
    assert n0 == o[0] && n1 == o[1] && n2 == o[2] && n3 == o[3] by {
      BytesUnique(n0, n1, n2, n3, o[0], o[1], o[2], o[3]);
    }
    CanonicalParts(parts, o);
    JoinSplitOn(t, ".");
  }

  /** Four decimal numerals without leading zeros are the numerals `toString()` writes for their values. */
  lemma CanonicalParts(parts: seq<string>, o: seq<nat>)
    requires |parts| == 4 && |o| == 4
    requires forall i :: 0 <= i < 4 ==> AllDecimal(parts[i]) && NoLeadingZero(parts[i]) && DecimalValue(parts[i]) == o[i]
    ensures parts == [Decimal(o[0]), Decimal(o[1]), Decimal(o[2]), Decimal(o[3])]
  {
    forall i | 0 <= i < 4 ensures parts[i] == Decimal(o[i]) {
      DecimalUnique(parts[i]);
    }
  }
}
