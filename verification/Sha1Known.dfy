/** The known answer of FIPS PUB 180-1, appendix A: the digest of "abc", round by round; and what the constants are. */
module Sha1Known {
  import opened Sha1
  import opened Sha1Stream

  /** The three characters, the one bit, zeros, and the length of 24 bits. */
  function Block(): (b: seq<Byte>)
    ensures |b| == 64
  {
    [0x61, 0x62, 0x63, 0x80] + Zeros(59) + [0x18]
  }

  lemma EarlyWord(b: seq<Byte>, t: nat)
    requires |b| == 64 && t < 16
    ensures Schedule(b, t) == BlockWord(b, t)
  {
  }

  lemma FirstWords(b: seq<Byte>)
    requires b == Block()
    ensures Schedule(b, 0) == 0x61626380 && Schedule(b, 15) == 0x00000018
    ensures forall t: nat :: 1 <= t < 15 ==> Schedule(b, t) == 0
  {
    hide Schedule;
    forall t: nat | t < 16 ensures Schedule(b, t) == BlockWord(b, t) {
      EarlyWord(b, t);
    }
  }

  /** Word `t`, from those it is made of. */
  lemma Next(b: seq<Byte>, t: nat, w3: Word, w8: Word, w14: Word, w16: Word, w: Word)
    requires |b| == 64 && t >= 16 && Schedule(b, t - 3) == w3 && Schedule(b, t - 8) == w8
    requires Schedule(b, t - 14) == w14 && Schedule(b, t - 16) == w16 && Expand(w3, w8, w14, w16) == w
    ensures Schedule(b, t) == w
  {
  }

  lemma Words16(b: seq<Byte>)
    requires b == Block()
    ensures Schedule(b, 16) == 0xC2C4C700 && Schedule(b, 17) == 0x00000000
    ensures Schedule(b, 18) == 0x00000030 && Schedule(b, 19) == 0x85898E01
    ensures Schedule(b, 20) == 0x00000000 && Schedule(b, 21) == 0x00000060
    ensures Schedule(b, 22) == 0x0B131C03 && Schedule(b, 23) == 0x00000030
    ensures Schedule(b, 24) == 0x85898EC1 && Schedule(b, 25) == 0x16263806
    ensures Schedule(b, 26) == 0x00000000 && Schedule(b, 27) == 0x00000180
    ensures Schedule(b, 28) == 0x2C4C700C && Schedule(b, 29) == 0x000000F0
    ensures Schedule(b, 30) == 0x93AFB507 && Schedule(b, 31) == 0x5898E048
  {
    hide Schedule, Block;
    FirstWords(b);
    Next(b, 16, 0x00000000, 0x00000000, 0x00000000, 0x61626380, 0xC2C4C700);
    Next(b, 17, 0x00000000, 0x00000000, 0x00000000, 0x00000000, 0x00000000);
    Next(b, 18, 0x00000018, 0x00000000, 0x00000000, 0x00000000, 0x00000030);
    Next(b, 19, 0xC2C4C700, 0x00000000, 0x00000000, 0x00000000, 0x85898E01);
    Next(b, 20, 0x00000000, 0x00000000, 0x00000000, 0x00000000, 0x00000000);
    Next(b, 21, 0x00000030, 0x00000000, 0x00000000, 0x00000000, 0x00000060);
    Next(b, 22, 0x85898E01, 0x00000000, 0x00000000, 0x00000000, 0x0B131C03);
    Next(b, 23, 0x00000000, 0x00000018, 0x00000000, 0x00000000, 0x00000030);
    Next(b, 24, 0x00000060, 0xC2C4C700, 0x00000000, 0x00000000, 0x85898EC1);
    Next(b, 25, 0x0B131C03, 0x00000000, 0x00000000, 0x00000000, 0x16263806);
    Next(b, 26, 0x00000030, 0x00000030, 0x00000000, 0x00000000, 0x00000000);
    Next(b, 27, 0x85898EC1, 0x85898E01, 0x00000000, 0x00000000, 0x00000180);
    Next(b, 28, 0x16263806, 0x00000000, 0x00000000, 0x00000000, 0x2C4C700C);
    Next(b, 29, 0x00000000, 0x00000060, 0x00000018, 0x00000000, 0x000000F0);
    Next(b, 30, 0x00000180, 0x0B131C03, 0xC2C4C700, 0x00000000, 0x93AFB507);
    Next(b, 31, 0x2C4C700C, 0x00000030, 0x00000000, 0x00000018, 0x5898E048);
  }

  lemma Words32(b: seq<Byte>)
    requires b == Block()
    ensures Schedule(b, 32) == 0x8E9A9202 && Schedule(b, 33) == 0x00000600
    ensures Schedule(b, 34) == 0xB131C0F0 && Schedule(b, 35) == 0x16263BC6
    ensures Schedule(b, 36) == 0x4EBED41E && Schedule(b, 37) == 0x626380A1
    ensures Schedule(b, 38) == 0x16263806 && Schedule(b, 39) == 0x000018C0
    ensures Schedule(b, 40) == 0xD2E138C4 && Schedule(b, 41) == 0x00000F00
    ensures Schedule(b, 42) == 0x3AFB5079 && Schedule(b, 43) == 0x898E04E5
    ensures Schedule(b, 44) == 0xE2BA3C2B && Schedule(b, 45) == 0x000060C0
    ensures Schedule(b, 46) == 0x053A37CD && Schedule(b, 47) == 0x74458547
  {
    hide Schedule, Block;
    Words16(b);
    Next(b, 32, 0x000000F0, 0x85898EC1, 0x00000030, 0xC2C4C700, 0x8E9A9202);
    Next(b, 33, 0x93AFB507, 0x16263806, 0x85898E01, 0x00000000, 0x00000600);
    Next(b, 34, 0x5898E048, 0x00000000, 0x00000000, 0x00000030, 0xB131C0F0);
    Next(b, 35, 0x8E9A9202, 0x00000180, 0x00000060, 0x85898E01, 0x16263BC6);
    Next(b, 36, 0x00000600, 0x2C4C700C, 0x0B131C03, 0x00000000, 0x4EBED41E);
    Next(b, 37, 0xB131C0F0, 0x000000F0, 0x00000030, 0x00000060, 0x626380A1);
    Next(b, 38, 0x16263BC6, 0x93AFB507, 0x85898EC1, 0x0B131C03, 0x16263806);
    Next(b, 39, 0x4EBED41E, 0x5898E048, 0x16263806, 0x00000030, 0x000018C0);
    Next(b, 40, 0x626380A1, 0x8E9A9202, 0x00000000, 0x85898EC1, 0xD2E138C4);
    Next(b, 41, 0x16263806, 0x00000600, 0x00000180, 0x16263806, 0x00000F00);
    Next(b, 42, 0x000018C0, 0xB131C0F0, 0x2C4C700C, 0x00000000, 0x3AFB5079);
    Next(b, 43, 0xD2E138C4, 0x16263BC6, 0x000000F0, 0x00000180, 0x898E04E5);
    Next(b, 44, 0x00000F00, 0x4EBED41E, 0x93AFB507, 0x2C4C700C, 0xE2BA3C2B);
    Next(b, 45, 0x3AFB5079, 0x626380A1, 0x5898E048, 0x000000F0, 0x000060C0);
    Next(b, 46, 0x898E04E5, 0x16263806, 0x8E9A9202, 0x93AFB507, 0x053A37CD);
    Next(b, 47, 0xE2BA3C2B, 0x000018C0, 0x00000600, 0x5898E048, 0x74458547);
  }

  lemma Words48(b: seq<Byte>)
    requires b == Block()
    ensures Schedule(b, 48) == 0xDA9415ED && Schedule(b, 49) == 0x26380A16
    ensures Schedule(b, 50) == 0x626383A1 && Schedule(b, 51) == 0x4EBF54DE
    ensures Schedule(b, 52) == 0x3835B44B && Schedule(b, 53) == 0x0000F600
    ensures Schedule(b, 54) == 0x1E84C7A3 && Schedule(b, 55) == 0x98E04D98
    ensures Schedule(b, 56) == 0x651D16A0 && Schedule(b, 57) == 0x62658CA1
    ensures Schedule(b, 58) == 0x458544D6 && Schedule(b, 59) == 0x44584CB7
    ensures Schedule(b, 60) == 0x7BA06619 && Schedule(b, 61) == 0x6380AEA2
    ensures Schedule(b, 62) == 0x0AE55269 && Schedule(b, 63) == 0x627B49A1
  {
    hide Schedule, Block;
    Words32(b);
    Next(b, 48, 0x000060C0, 0xD2E138C4, 0xB131C0F0, 0x8E9A9202, 0xDA9415ED);
    Next(b, 49, 0x053A37CD, 0x00000F00, 0x16263BC6, 0x00000600, 0x26380A16);
    Next(b, 50, 0x74458547, 0x3AFB5079, 0x4EBED41E, 0xB131C0F0, 0x626383A1);
    Next(b, 51, 0xDA9415ED, 0x898E04E5, 0x626380A1, 0x16263BC6, 0x4EBF54DE);
    Next(b, 52, 0x26380A16, 0xE2BA3C2B, 0x16263806, 0x4EBED41E, 0x3835B44B);
    Next(b, 53, 0x626383A1, 0x000060C0, 0x000018C0, 0x626380A1, 0x0000F600);
    Next(b, 54, 0x4EBF54DE, 0x053A37CD, 0xD2E138C4, 0x16263806, 0x1E84C7A3);
    Next(b, 55, 0x3835B44B, 0x74458547, 0x00000F00, 0x000018C0, 0x98E04D98);
    Next(b, 56, 0x0000F600, 0xDA9415ED, 0x3AFB5079, 0xD2E138C4, 0x651D16A0);
    Next(b, 57, 0x1E84C7A3, 0x26380A16, 0x898E04E5, 0x00000F00, 0x62658CA1);
    Next(b, 58, 0x98E04D98, 0x626383A1, 0xE2BA3C2B, 0x3AFB5079, 0x458544D6);
    Next(b, 59, 0x651D16A0, 0x4EBF54DE, 0x000060C0, 0x898E04E5, 0x44584CB7);
    Next(b, 60, 0x62658CA1, 0x3835B44B, 0x053A37CD, 0xE2BA3C2B, 0x7BA06619);
    Next(b, 61, 0x458544D6, 0x0000F600, 0x74458547, 0x000060C0, 0x6380AEA2);
    Next(b, 62, 0x44584CB7, 0x1E84C7A3, 0xDA9415ED, 0x053A37CD, 0x0AE55269);
    Next(b, 63, 0x7BA06619, 0x98E04D98, 0x26380A16, 0x74458547, 0x627B49A1);
  }

  lemma Words64(b: seq<Byte>)
    requires b == Block()
    ensures Schedule(b, 64) == 0x7CD45C9D && Schedule(b, 65) == 0x000F0000
    ensures Schedule(b, 66) == 0xFB50753A && Schedule(b, 67) == 0xEC6765E8
    ensures Schedule(b, 68) == 0xBA3C2BE2 && Schedule(b, 69) == 0x0060C000
    ensures Schedule(b, 70) == 0x3A37CD05 && Schedule(b, 71) == 0x458546F4
    ensures Schedule(b, 72) == 0xB8599DD6 && Schedule(b, 73) == 0x380A1A26
    ensures Schedule(b, 74) == 0x01E02203 && Schedule(b, 75) == 0xE7CC3456
    ensures Schedule(b, 76) == 0xE6E60B69 && Schedule(b, 77) == 0x00F60A00
    ensures Schedule(b, 78) == 0x5795EF4F && Schedule(b, 79) == 0x822E0879
  {
    hide Schedule, Block;
    Words48(b);
    Next(b, 64, 0x6380AEA2, 0x651D16A0, 0x626383A1, 0xDA9415ED, 0x7CD45C9D);
    Next(b, 65, 0x0AE55269, 0x62658CA1, 0x4EBF54DE, 0x26380A16, 0x000F0000);
    Next(b, 66, 0x627B49A1, 0x458544D6, 0x3835B44B, 0x626383A1, 0xFB50753A);
    Next(b, 67, 0x7CD45C9D, 0x44584CB7, 0x0000F600, 0x4EBF54DE, 0xEC6765E8);
    Next(b, 68, 0x000F0000, 0x7BA06619, 0x1E84C7A3, 0x3835B44B, 0xBA3C2BE2);
    Next(b, 69, 0xFB50753A, 0x6380AEA2, 0x98E04D98, 0x0000F600, 0x0060C000);
    Next(b, 70, 0xEC6765E8, 0x0AE55269, 0x651D16A0, 0x1E84C7A3, 0x3A37CD05);
    Next(b, 71, 0xBA3C2BE2, 0x627B49A1, 0x62658CA1, 0x98E04D98, 0x458546F4);
    Next(b, 72, 0x0060C000, 0x7CD45C9D, 0x458544D6, 0x651D16A0, 0xB8599DD6);
    Next(b, 73, 0x3A37CD05, 0x000F0000, 0x44584CB7, 0x62658CA1, 0x380A1A26);
    Next(b, 74, 0x458546F4, 0xFB50753A, 0x7BA06619, 0x458544D6, 0x01E02203);
    Next(b, 75, 0xB8599DD6, 0xEC6765E8, 0x6380AEA2, 0x44584CB7, 0xE7CC3456);
    Next(b, 76, 0x380A1A26, 0xBA3C2BE2, 0x0AE55269, 0x7BA06619, 0xE6E60B69);
    Next(b, 77, 0x01E02203, 0x0060C000, 0x627B49A1, 0x6380AEA2, 0x00F60A00);
    Next(b, 78, 0xE7CC3456, 0x3A37CD05, 0x7CD45C9D, 0x0AE55269, 0x5795EF4F);
    Next(b, 79, 0xE6E60B69, 0x458546F4, 0x000F0000, 0x627B49A1, 0x822E0879);
  }

  /** The constants of the rounds are the square roots of 2, 3, 5 and 10, in units of 2^-30. */
  lemma Roots(t: nat)
    requires t < 80
    ensures var n := if t < 20 then 2 else if t < 40 then 3 else if t < 60 then 5 else 10;
      K(t) as nat * K(t) as nat <= n * 0x1000_0000_0000_0000 < (K(t) as nat + 1) * (K(t) as nat + 1)
  {
  }

  /** As stored with the least byte first, the first four words that the registers start with are the bytes 01 23 up to
      ef, and the same digits backwards; the last is f0 e1 d2 c3. */
  lemma StartingBytes()
    ensures var h := INITIAL;
      && LittleWord(0x01, 0x23, 0x45, 0x67) == h.a && LittleWord(0x89, 0xab, 0xcd, 0xef) == h.b
      && LittleWord(0xfe, 0xdc, 0xba, 0x98) == h.c && LittleWord(0x76, 0x54, 0x32, 0x10) == h.d
      && LittleWord(0xf0, 0xe1, 0xd2, 0xc3) == h.e
  {
  }

  /** Rounds `t` to `t + 4`, with the words they take. */
  lemma Five(b: seq<Byte>, t: nat, r: Regs, w0: Word, w1: Word, w2: Word, w3: Word, w4: Word, r5: Regs)
    requires |b| == 64 && t + 5 <= 80 && Rounds(t, INITIAL, b) == r
    requires Schedule(b, t) == w0 && Schedule(b, t + 1) == w1 && Schedule(b, t + 2) == w2
    requires Schedule(b, t + 3) == w3 && Schedule(b, t + 4) == w4
    requires Round(t + 4, Round(t + 3, Round(t + 2, Round(t + 1, Round(t, r, w0), w1), w2), w3), w4) == r5
    ensures Rounds(t + 5, INITIAL, b) == r5
  {
    hide Round, Schedule, Rounds, Block;
    FiveRounds(t, INITIAL, b);
  }

  lemma Rounds20(b: seq<Byte>)
    requires b == Block()
    ensures Rounds(20, INITIAL, b) == Regs(0xFD9E1D7D, 0xDC64901D, 0x20AA99CA, 0xD3A49608, 0xC82F758B)
  {
    hide Schedule, Rounds, Block;
    NoRounds(INITIAL, b);
    FirstWords(b);
    Words16(b);
    Five(b, 0, Regs(0x67452301, 0xEFCDAB89, 0x98BADCFE, 0x10325476, 0xC3D2E1F0),
      0x61626380, 0x00000000, 0x00000000, 0x00000000, 0x00000000,
      Regs(0xCFD499DE, 0xCDD8E11B, 0x284E43C2, 0x626414DB, 0xC045BF0C));
    Five(b, 5, Regs(0xCFD499DE, 0xCDD8E11B, 0x284E43C2, 0x626414DB, 0xC045BF0C),
      0x00000000, 0x00000000, 0x00000000, 0x00000000, 0x00000000,
      Regs(0x8351F929, 0x4B6AE328, 0x27A301F5, 0x664F8C30, 0x0FF1F290));
    Five(b, 10, Regs(0x8351F929, 0x4B6AE328, 0x27A301F5, 0x664F8C30, 0x0FF1F290),
      0x00000000, 0x00000000, 0x00000000, 0x00000000, 0x00000000,
      Regs(0x196BEE77, 0x9128F695, 0x1181ED99, 0x18C623F9, 0x7EF6A7A2));
    Five(b, 15, Regs(0x196BEE77, 0x9128F695, 0x1181ED99, 0x18C623F9, 0x7EF6A7A2),
      0x00000018, 0xC2C4C700, 0x00000000, 0x00000030, 0x85898E01,
      Regs(0xFD9E1D7D, 0xDC64901D, 0x20AA99CA, 0xD3A49608, 0xC82F758B));
  }

  lemma Rounds40(b: seq<Byte>)
    requires b == Block()
    ensures Rounds(40, INITIAL, b) == Regs(0x32DE1CBA, 0x4C986405, 0xF718E5CF, 0x03D447F6, 0xF72EEC32)
  {
    hide Schedule, Rounds, Block;
    Rounds20(b);
    Words16(b);
    Words32(b);
    Five(b, 20, Regs(0xFD9E1D7D, 0xDC64901D, 0x20AA99CA, 0xD3A49608, 0xC82F758B),
      0x00000000, 0x00000060, 0x0B131C03, 0x00000030, 0x85898EC1,
      Regs(0xC7567DC6, 0xD541F12D, 0x884A0D21, 0x0CE88EFF, 0x868DEC32));
    Five(b, 25, Regs(0xC7567DC6, 0xD541F12D, 0x884A0D21, 0x0CE88EFF, 0x868DEC32),
      0x16263806, 0x00000000, 0x00000180, 0x2C4C700C, 0x000000F0,
      Regs(0xC5FBAF5D, 0x8370B52E, 0xD2AA1365, 0x6F8D7EF5, 0x12104EE9));
    Five(b, 30, Regs(0xC5FBAF5D, 0x8370B52E, 0xD2AA1365, 0x6F8D7EF5, 0x12104EE9),
      0x93AFB507, 0x5898E048, 0x8E9A9202, 0x00000600, 0xB131C0F0,
      Regs(0x21796AD4, 0x2C0EBC11, 0x811BEA82, 0xCEE1174C, 0xC499ED01));
    Five(b, 35, Regs(0x21796AD4, 0x2C0EBC11, 0x811BEA82, 0xCEE1174C, 0xC499ED01),
      0x16263BC6, 0x4EBED41E, 0x626380A1, 0x16263806, 0x000018C0,
      Regs(0x32DE1CBA, 0x4C986405, 0xF718E5CF, 0x03D447F6, 0xF72EEC32));
  }

  lemma Rounds60(b: seq<Byte>)
    requires b == Block()
    ensures Rounds(60, INITIAL, b) == Regs(0x3F52DE5A, 0x09D785FD, 0x3498BFD4, 0xF211824F, 0xD79915AB)
  {
    hide Schedule, Rounds, Block;
    Rounds40(b);
    Words32(b);
    Words48(b);
    Five(b, 40, Regs(0x32DE1CBA, 0x4C986405, 0xF718E5CF, 0x03D447F6, 0xF72EEC32),
      0xD2E138C4, 0x00000F00, 0x3AFB5079, 0x898E04E5, 0xE2BA3C2B,
      Regs(0x40F28E09, 0xEE1B1AAF, 0x5FC64F71, 0x25C28357, 0xFF21F7B7));
    Five(b, 45, Regs(0x40F28E09, 0xEE1B1AAF, 0x5FC64F71, 0x25C28357, 0xFF21F7B7),
      0x000060C0, 0x053A37CD, 0x74458547, 0xDA9415ED, 0x26380A16,
      Regs(0x120731C5, 0xBAF39337, 0xAFAB40B2, 0x2806E11B, 0x8714787C));
    Five(b, 50, Regs(0x120731C5, 0xBAF39337, 0xAFAB40B2, 0x2806E11B, 0x8714787C),
      0x626383A1, 0x4EBF54DE, 0x3835B44B, 0x0000F600, 0x1E84C7A3,
      Regs(0x7B71F76D, 0x27E9F1D8, 0x792410DB, 0x8E11EB59, 0x99076CB3));
    Five(b, 55, Regs(0x7B71F76D, 0x27E9F1D8, 0x792410DB, 0x8E11EB59, 0x99076CB3),
      0x98E04D98, 0x651D16A0, 0x62658CA1, 0x458544D6, 0x44584CB7,
      Regs(0x3F52DE5A, 0x09D785FD, 0x3498BFD4, 0xF211824F, 0xD79915AB));
  }

  lemma Rounds80(b: seq<Byte>)
    requires b == Block()
    ensures Rounds(80, INITIAL, b) == Regs(0x42541B35, 0x5738D5E1, 0x21834873, 0x681E6DF6, 0xD8FDF6AD)
  {
    hide Schedule, Rounds, Block;
    Rounds60(b);
    Words48(b);
    Words64(b);
    Five(b, 60, Regs(0x3F52DE5A, 0x09D785FD, 0x3498BFD4, 0xF211824F, 0xD79915AB),
      0x7BA06619, 0x6380AEA2, 0x0AE55269, 0x627B49A1, 0x7CD45C9D,
      Regs(0x19DFA7AC, 0x6B61C9E1, 0xED9B0082, 0x9523272C, 0xF5D5B051));
    Five(b, 65, Regs(0x19DFA7AC, 0x6B61C9E1, 0xED9B0082, 0x9523272C, 0xF5D5B051),
      0x000F0000, 0xFB50753A, 0xEC6765E8, 0xBA3C2BE2, 0x0060C000,
      Regs(0x3F2588C2, 0x497093C0, 0xDE37534A, 0x030F7CAD, 0x4405957E));
    Five(b, 70, Regs(0x3F2588C2, 0x497093C0, 0xDE37534A, 0x030F7CAD, 0x4405957E),
      0x3A37CD05, 0x458546F4, 0xB8599DD6, 0x380A1A26, 0x01E02203,
      Regs(0x5EE76897, 0x11793F6F, 0x3B6D0B79, 0xCE616779, 0xF0667E31));
    Five(b, 75, Regs(0x5EE76897, 0x11793F6F, 0x3B6D0B79, 0xCE616779, 0xF0667E31),
      0xE7CC3456, 0xE6E60B69, 0x00F60A00, 0x5795EF4F, 0x822E0879,
      Regs(0x42541B35, 0x5738D5E1, 0x21834873, 0x681E6DF6, 0xD8FDF6AD));
  }

  lemma Padded()
    ensures Pad([0x61, 0x62, 0x63]) == Block()
  {
    var m: seq<Byte> := [0x61, 0x62, 0x63];
    assert |m| == 3 && (55 - 3) % 64 == 52;
    assert Pow256(1) == 0x100 && Pow256(2) == 0x1_0000 && Pow256(3) == 0x100_0000;
    forall k | 0 <= k < 8 ensures LengthByte(24, k) == if k == 7 then 0x18 else 0 {
      LengthOf24(k);
    }
    assert Pad(m) == Block();
  }

  lemma LengthOf24(k: nat)
    requires k < 8
    ensures LengthByte(24, k) == if k == 7 then 0x18 else 0
  {
    if k < 7 {
      assert Pow256(7 - k) == 256 * Pow256(6 - k);
      Small(Pow256(7 - k));
    }
  }

  lemma Small(p: nat)
    requires p > 24
    ensures 24 / p == 0
  {
  }

  /** The digest of "abc". */
  lemma KnownAnswer()
    ensures Digest([0x61, 0x62, 0x63]) ==
      [0xa9, 0x99, 0x3e, 0x36, 0x47, 0x06, 0x81, 0x6a, 0xba, 0x3e, 0x25, 0x71, 0x78, 0x50, 0xc2, 0x6c, 0x9c, 0xd0, 0xd8, 0x9d]
  {
    hide Rounds, Pad, Block;
    Padded();
    Rounds80(Block());
    OneBlock(Block());
    var d := Regs(0xA9993E36, 0x4706816A, 0xBA3E2571, 0x7850C26C, 0x9CD0D89D);
    assert Plus(INITIAL, Rounds(80, INITIAL, Block())) == d;
    Written();
  }

  lemma OneBlock(b: seq<Byte>)
    requires |b| == 64
    ensures HashBlocks(b) == Compress(INITIAL, b)
  {
    hide Compress;
    assert b[..|b| - 64] == [] && b[|b| - 64..] == b;
  }

  lemma Written()
    ensures RegBytes(Regs(0xA9993E36, 0x4706816A, 0xBA3E2571, 0x7850C26C, 0x9CD0D89D)) ==
      [0xa9, 0x99, 0x3e, 0x36, 0x47, 0x06, 0x81, 0x6a, 0xba, 0x3e, 0x25, 0x71, 0x78, 0x50, 0xc2, 0x6c, 0x9c, 0xd0, 0xd8, 0x9d]
  {
  }
}
