/**
 * The concrete cases of test/test.js, computed on the model. Two of them
 * differ from what the test file asserts, because the code does something
 * else: "0:0:10:2:0:0" has twelve characters, so the no-separator shortcut
 * reads its leading "0" and answers 0; and 02:42:ac:11:00:02 carries
 * 0xAC110002, whose dotted quad is 172.17.0.2.
 */
module MacExamples {
  import opened Wrappers
  import opened Strings
  import opened Numerals
  import opened MacAddress
  import opened OuiRegistry

  /** 0xBC2411CF9A4B, the address test/test.js uses throughout. */
  const Proxmox: int := 0xBC2411CF9A4B

  /** The value of the first `n` digits of `s`, most significant first. */
  function Horner(s: string, n: nat): nat
    requires n <= |s| && AllHex(s)
  {
    if n == 0 then 0 else 16 * Horner(s, n - 1) + DigitValue(s[n - 1])
  }

  lemma {:induction false} HexValueHorner(s: string, n: nat)
    requires n <= |s| && AllHex(s)
    ensures AllHex(s[..n]) && HexValue(s[..n]) == Horner(s, n)
  {
    if n > 0 {
      HexValueHorner(s, n - 1);
      assert s[..n][..n - 1] == s[..n - 1];
    }
  }

  /** The value of twelve hex digits from the values of their six pairs. */
  lemma Twelve(s: string, a: nat, b: nat, c: nat, d: nat, e: nat, f: nat)
    requires |s| == 12 && AllHex(s)
    requires DigitValue(s[0]) * 16 + DigitValue(s[1]) == a
    requires DigitValue(s[2]) * 16 + DigitValue(s[3]) == b
    requires DigitValue(s[4]) * 16 + DigitValue(s[5]) == c
    requires DigitValue(s[6]) * 16 + DigitValue(s[7]) == d
    requires DigitValue(s[8]) * 16 + DigitValue(s[9]) == e
    requires DigitValue(s[10]) * 16 + DigitValue(s[11]) == f
    ensures HexValue(s) == ((((a * 0x100 + b) * 0x100 + c) * 0x100 + d) * 0x100 + e) * 0x100 + f
  {
    HexValueHorner(s, 12);
    assert s[..12] == s;
    assert Horner(s, 1) == DigitValue(s[0]);
    assert Horner(s, 2) == a;
    assert Horner(s, 4) == a * 0x100 + b;
    assert Horner(s, 6) == (a * 0x100 + b) * 0x100 + c;
    assert Horner(s, 8) == ((a * 0x100 + b) * 0x100 + c) * 0x100 + d;
    assert Horner(s, 10) == (((a * 0x100 + b) * 0x100 + c) * 0x100 + d) * 0x100 + e;
  }

  /** The twelve digits of the test address, lower case. */
  lemma LowerDigits()
    ensures AllHex("bc2411cf9a4b") && HexValue("bc2411cf9a4b") == Proxmox
  {
    Twelve("bc2411cf9a4b", 0xbc, 0x24, 0x11, 0xcf, 0x9a, 0x4b);
  }

  /** The twelve digits of the test address, upper case. */
  lemma UpperDigits()
    ensures AllHex("BC2411CF9A4B") && HexValue("BC2411CF9A4B") == Proxmox
  {
    Twelve("BC2411CF9A4B", 0xbc, 0x24, 0x11, 0xcf, 0x9a, 0x4b);
  }

  /** test/test.js:4: the standard spelling takes the 17-character shortcut. */
  lemma ParseStandard()
    ensures Parse(Text("bc:24:11:cf:9a:4b")) == Ok(Proxmox)
  {
    var s := "bc:24:11:cf:9a:4b";
    assert Pick(s) == "bc2411cf9a4b";
    assert IsHexDigit(s[0]);
    LowerDigits();
    ParseSeventeen(s, s);
  }

  /** test/test.js:5: the bare spelling takes the 12-character shortcut. */
  lemma ParseBare()
    ensures Parse(Text("bc2411cf9a4b")) == Ok(Proxmox)
  {
    LowerDigits();
    ParseTwelve("bc2411cf9a4b");
  }

  /** test/test.js:6: dashes take the 17-character shortcut too, which never reads the separators. */
  lemma ParseDashes()
    ensures Parse(Text("bc-24-11-cf-9a-4b")) == Ok(Proxmox)
  {
    ParseStandard();
    var s, t := "bc:24:11:cf:9a:4b", "bc-24-11-cf-9a-4b";
    assert Pick(t) == Pick(s);
    assert IsHexDigit(s[0]);
    ParseSeventeen(s, t);
  }

  /** test/test.js:7: three dot-separated groups of four digits. */
  lemma ParseThreeGroups()
    ensures Parse(Text("bc24" + "." + "11cf" + "." + "9a4b")) == Ok(Proxmox)
  {
    assert HexValue("bc24" + "11cf" + "9a4b") == Proxmox by {
      Twelve("bc24" + "11cf" + "9a4b", 0xbc, 0x24, 0x11, 0xcf, 0x9a, 0x4b);
    }
    ParseQuads("bc24", '.', "11cf", '.', "9a4b");
  }

  /** test/test.js:8: two dot-separated groups of six digits. */
  lemma ParseTwoGroups()
    ensures Parse(Text("bc2411" + "." + "cf9a4b")) == Ok(Proxmox)
  {
    assert HexValue("bc2411" + "cf9a4b") == Proxmox by {
      Twelve("bc2411" + "cf9a4b", 0xbc, 0x24, 0x11, 0xcf, 0x9a, 0x4b);
    }
    ParseHalves("bc2411", '.', "cf9a4b");
  }

  /** test/test.js:9 expects 0x10020000; the twelve-character shortcut answers 0. */
  lemma ParseShortGroups()
    ensures Parse(Text("0:0:10:2:0:0")) == Ok(0)
  {
    assert HexRun("0:0:10:2:0:0") == "0";
  }

  /** Twelve digits written as six colon-separated pairs. */
  lemma ColonsOfPairs(a: string, b: string, c: string, d: string, e: string, f: string)
    requires |a| == 2 && |b| == 2 && |c| == 2 && |d| == 2 && |e| == 2 && |f| == 2
    ensures Colons(a + b + c + d + e + f) == a + ":" + b + ":" + c + ":" + d + ":" + e + ":" + f
  {
    var s := a + b + c + d + e + f;
    assert s[0..2] == a && s[2..4] == b && s[4..6] == c && s[6..8] == d && s[8..10] == e && s[10..12] == f;
  }

  /** The twelve digits of the test address, as `Digits` writes them. */
  lemma ProxmoxTwelve()
    ensures Digits(Proxmox, 12) == "BC2411CF9A4B"
  {
    UpperDigits();
    assert AllUpperHex("BC2411CF9A4B");
    DigitsOfValue("BC2411CF9A4B");
  }

  lemma ProxmoxColons()
    ensures Colons("BC2411CF9A4B") == "BC:24:11:CF:9A:4B"
  {
    assert "BC2411CF9A4B" == "BC" + "24" + "11" + "CF" + "9A" + "4B";
    ColonsOfPairs("BC", "24", "11", "CF", "9A", "4B");
    assert "BC" + ":" + "24" + ":" + "11" + ":" + "CF" + ":" + "9A" + ":" + "4B" == "BC:24:11:CF:9A:4B";
  }

  /** test/test.js:11: the canonical rendering. */
  lemma ProxmoxRendering()
    ensures ToString(Int(Proxmox)) == Ok("BC:24:11:CF:9A:4B")
  {
    ProxmoxTwelve();
    FormatDigits(Proxmox);
    ProxmoxColons();
  }

  /** test/test.js:12: the OUI. */
  lemma ProxmoxOui()
    ensures GetOui(Int(Proxmox)) == Ok("BC2411")
  {
    assert Oui(Proxmox) == "BC2411CF9A4B"[..6] by {
      ProxmoxTwelve();
      OuiDigits(Proxmox);
    }
    assert "BC2411CF9A4B" == "BC2411" + "CF9A4B";
    assert ("BC2411" + "CF9A4B")[..6] == "BC2411";
  }

  /** test/test.js:13, 15 and 17: the test address is neither multicast, nor local, nor Docker's. */
  lemma ProxmoxBits()
    ensures GetMulticast(Int(Proxmox)) == Ok(false)
    ensures GetLAA(Int(Proxmox)) == Ok(false)
    ensures IsDocker(Int(Proxmox)) == Ok(false)
  {
  }

  /** The address of test/test.js:14. */
  lemma MulticastValue()
    ensures Parse(Text("01:00:5e:00:00:16")) == Ok(0x01005E000016)
  {
    var s := "01:00:5e:00:00:16";
    assert AllHex(Pick(s)) && IsHexDigit(s[0]);
    assert HexValue(Pick(s)) == 0x01005E000016 by {
      Twelve(Pick(s), 0x01, 0x00, 0x5e, 0x00, 0x00, 0x16);
    }
    ParseSeventeen(s, s);
  }

  lemma GroupBit()
    ensures IsGroup(0x01005E000016)
  {
    DivUnique(0x01005E000016, TwoTo40, 1, 0x5E000016);
  }

  /** test/test.js:14: 01:00:5e:00:00:16 is multicast. */
  lemma MulticastSample()
    ensures GetMulticast(Text("01:00:5e:00:00:16")) == Ok(true)
  {
    MulticastValue();
    GroupBit();
  }

  /** The address of test/test.js:16. */
  lemma LocalValue()
    ensures Parse(Text("02:00:00:00:00:00")) == Ok(0x020000000000)
  {
    var s := "02:00:00:00:00:00";
    assert AllHex(Pick(s)) && IsHexDigit(s[0]);
    assert HexValue(Pick(s)) == 0x020000000000 by {
      Twelve(Pick(s), 0x02, 0x00, 0x00, 0x00, 0x00, 0x00);
    }
    ParseSeventeen(s, s);
  }

  lemma LocalBit()
    ensures IsLocal(0x020000000000)
  {
    DivUnique(0x020000000000, TwoTo41, 1, 0);
  }

  /** test/test.js:16: 02:00:00:00:00:00 is locally administered. */
  lemma LocalSample()
    ensures GetLAA(Text("02:00:00:00:00:00")) == Ok(true)
  {
    LocalValue();
    LocalBit();
  }

  /** The address of test/test.js:18-19. */
  lemma DockerValue()
    ensures Parse(Text("02:42:ac:11:00:02")) == Ok(0x0242AC110002)
  {
    var s := "02:42:ac:11:00:02";
    assert AllHex(Pick(s)) && IsHexDigit(s[0]);
    assert HexValue(Pick(s)) == 0x0242AC110002 by {
      Twelve(Pick(s), 0x02, 0x42, 0xac, 0x11, 0x00, 0x02);
    }
    ParseSeventeen(s, s);
  }

  /** test/test.js:18: 02:42:ac:11:00:02 is a Docker address. */
  lemma DockerSample()
    ensures IsDocker(Text("02:42:ac:11:00:02")) == Ok(true)
  {
    DockerValue();
    assert HasDockerPrefix(0x0242AC110002);
  }

  /** The four octets of the low 32 bits of the Docker address. */
  lemma DockerOctets()
    ensures Octets(0x0242AC110002) == [172, 17, 0, 2]
  {
    DivUnique(0x0242AC110002, TwoTo32, 0x242, 0xAC110002);
    DivUnique(0xAC110002, 0x100_0000, 0xAC, 0x11_0002);
    DivUnique(0xAC110002, 0x1_0000, 0xAC11, 0x0002);
    DivUnique(0xAC11, 0x100, 0xAC, 0x11);
    DivUnique(0xAC110002, 0x100, 0xAC1100, 0x02);
    DivUnique(0xAC1100, 0x100, 0xAC11, 0);
  }

  lemma DockerDecimals()
    ensures Decimal(172) == "172" && Decimal(17) == "17" && Decimal(0) == "0" && Decimal(2) == "2"
  {
    assert Decimal(17) == "17";
  }

  /** The dotted quad of the low 32 bits of the Docker address. */
  lemma DockerQuad()
    ensures DottedQuad(0x0242AC110002) == "172.17.0.2"
  {
    DockerOctets();
    DockerDecimals();
    assert Join(["172", "17", "0", "2"], ".") == "172.17.0.2";
  }

  /** test/test.js:19 expects 172.16.0.2; 0xAC110002 gives 172.17.0.2. */
  lemma DockerAddress()
    ensures DockerIP(Text("02:42:ac:11:00:02")) == Ok("172.17.0.2")
  {
    DockerValue();
    DockerQuad();
  }

  /** test/test.js:23-26: a lookup in a one-entry map, and a miss in an empty one. */
  lemma VendorFound()
    ensures var db := map["BC2411" := Vendor(Some("Proxmox Server Solutions GmbH"), None, None, None)];
            GetVendor(Int(Proxmox), db) == Ok(Some(Vendor(Some("Proxmox Server Solutions GmbH"), None, None, None)))
    ensures GetVendor(Int(Proxmox), map[]) == Ok(None)
  {
    ProxmoxOui();
  }
}
