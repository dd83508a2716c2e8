/** The page checksum: a table-driven 32-bit register update folded over a
    byte range. The table is the one the store ships; it is not the table of
    the ISO-HDLC / IEEE 802.3 CRC-32 (each entry differs from that table's by
    0xD2FD1072), and the update complements the register on every step, so
    no standard check value is claimed here. */
module Crc {
  import opened Bytes

  /** The update the table is built from: `k` rounds of the reflected
      CRC-32 shift register with the polynomial 0xEDB88320 the table's
      comment names. */
  function Rounds(c: bv32, k: nat): bv32
    decreases k
  {
    if k == 0 then c else Rounds(if c & 1 == 1 then (c >> 1) ^ 0xEDB8_8320 else c >> 1, k - 1)
  }

  /** Entry `i` of `_crc_32_tab_2`: eight rounds on `i`, then 0xD2FD1072
      xor'ed in. The `TableRow` lemmas below show that this gives the
      table's literal entries. */
  function Entry(i: bv32): bv32
    requires i < 256
  {
    Rounds(i, 8) ^ 0xD2FD_1072
  }

  /** `_crc_32_tab_2`, sixteen entries at a time. */
  lemma TableRow0()
    ensures [Entry(0), Entry(1), Entry(2), Entry(3), Entry(4), Entry(5), Entry(6), Entry(7),
             Entry(8), Entry(9), Entry(10), Entry(11), Entry(12), Entry(13), Entry(14), Entry(15)]
         == [0xd2fd1072, 0xa5fa20e4, 0x3cf3715e, 0x4bf441c8, 0xd590d46b, 0xa297e4fd, 0x3b9eb547, 0x4c9985d1,
             0xdc269840, 0xab21a8d6, 0x3228f96c, 0x452fc9fa, 0xdb4b5c59, 0xac4c6ccf, 0x35453d75, 0x42420de3]
  {
  }

  lemma TableRow1()
    ensures [Entry(16), Entry(17), Entry(18), Entry(19), Entry(20), Entry(21), Entry(22), Entry(23),
             Entry(24), Entry(25), Entry(26), Entry(27), Entry(28), Entry(29), Entry(30), Entry(31)]
         == [0xcf4a0016, 0xb84d3080, 0x2144613a, 0x564351ac, 0xc827c40f, 0xbf20f499, 0x2629a523, 0x512e95b5,
             0xc1918824, 0xb696b8b2, 0x2f9fe908, 0x5898d99e, 0xc6fc4c3d, 0xb1fb7cab, 0x28f22d11, 0x5ff51d87]
  {
  }

  lemma TableRow2()
    ensures [Entry(32), Entry(33), Entry(34), Entry(35), Entry(36), Entry(37), Entry(38), Entry(39),
             Entry(40), Entry(41), Entry(42), Entry(43), Entry(44), Entry(45), Entry(46), Entry(47)]
         == [0xe99330ba, 0x9e94002c, 0x79d5196, 0x709a6100, 0xeefef4a3, 0x99f9c435, 0xf0958f, 0x77f7a519,
             0xe748b888, 0x904f881e, 0x946d9a4, 0x7e41e932, 0xe0257c91, 0x97224c07, 0xe2b1dbd, 0x792c2d2b]
  {
  }

  lemma TableRow3()
    ensures [Entry(48), Entry(49), Entry(50), Entry(51), Entry(52), Entry(53), Entry(54), Entry(55),
             Entry(56), Entry(57), Entry(58), Entry(59), Entry(60), Entry(61), Entry(62), Entry(63)]
         == [0xf42420de, 0x83231048, 0x1a2a41f2, 0x6d2d7164, 0xf349e4c7, 0x844ed451, 0x1d4785eb, 0x6a40b57d,
             0xfaffa8ec, 0x8df8987a, 0x14f1c9c0, 0x63f6f956, 0xfd926cf5, 0x8a955c63, 0x139c0dd9, 0x649b3d4f]
  {
  }

  lemma TableRow4()
    ensures [Entry(64), Entry(65), Entry(66), Entry(67), Entry(68), Entry(69), Entry(70), Entry(71),
             Entry(72), Entry(73), Entry(74), Entry(75), Entry(76), Entry(77), Entry(78), Entry(79)]
         == [0xa42151e2, 0xd3266174, 0x4a2f30ce, 0x3d280058, 0xa34c95fb, 0xd44ba56d, 0x4d42f4d7, 0x3a45c441,
             0xaafad9d0, 0xddfde946, 0x44f4b8fc, 0x33f3886a, 0xad971dc9, 0xda902d5f, 0x43997ce5, 0x349e4c73]
  {
  }

  lemma TableRow5()
    ensures [Entry(80), Entry(81), Entry(82), Entry(83), Entry(84), Entry(85), Entry(86), Entry(87),
             Entry(88), Entry(89), Entry(90), Entry(91), Entry(92), Entry(93), Entry(94), Entry(95)]
         == [0xb9964186, 0xce917110, 0x579820aa, 0x209f103c, 0xbefb859f, 0xc9fcb509, 0x50f5e4b3, 0x27f2d425,
             0xb74dc9b4, 0xc04af922, 0x5943a898, 0x2e44980e, 0xb0200dad, 0xc7273d3b, 0x5e2e6c81, 0x29295c17]
  {
  }

  lemma TableRow6()
    ensures [Entry(96), Entry(97), Entry(98), Entry(99), Entry(100), Entry(101), Entry(102), Entry(103),
             Entry(104), Entry(105), Entry(106), Entry(107), Entry(108), Entry(109), Entry(110), Entry(111)]
         == [0x9f4f712a, 0xe84841bc, 0x71411006, 0x6462090, 0x9822b533, 0xef2585a5, 0x762cd41f, 0x12be489,
             0x9194f918, 0xe693c98e, 0x7f9a9834, 0x89da8a2, 0x96f93d01, 0xe1fe0d97, 0x78f75c2d, 0xff06cbb]
  {
  }

  lemma TableRow7()
    ensures [Entry(112), Entry(113), Entry(114), Entry(115), Entry(116), Entry(117), Entry(118), Entry(119),
             Entry(120), Entry(121), Entry(122), Entry(123), Entry(124), Entry(125), Entry(126), Entry(127)]
         == [0x82f8614e, 0xf5ff51d8, 0x6cf60062, 0x1bf130f4, 0x8595a557, 0xf29295c1, 0x6b9bc47b, 0x1c9cf4ed,
             0x8c23e97c, 0xfb24d9ea, 0x622d8850, 0x152ab8c6, 0x8b4e2d65, 0xfc491df3, 0x65404c49, 0x12477cdf]
  {
  }

  lemma TableRow8()
    ensures [Entry(128), Entry(129), Entry(130), Entry(131), Entry(132), Entry(133), Entry(134), Entry(135),
             Entry(136), Entry(137), Entry(138), Entry(139), Entry(140), Entry(141), Entry(142), Entry(143)]
         == [0x3f459352, 0x4842a3c4, 0xd14bf27e, 0xa64cc2e8, 0x3828574b, 0x4f2f67dd, 0xd6263667, 0xa12106f1,
             0x319e1b60, 0x46992bf6, 0xdf907a4c, 0xa8974ada, 0x36f3df79, 0x41f4efef, 0xd8fdbe55, 0xaffa8ec3]
  {
  }

  lemma TableRow9()
    ensures [Entry(144), Entry(145), Entry(146), Entry(147), Entry(148), Entry(149), Entry(150), Entry(151),
             Entry(152), Entry(153), Entry(154), Entry(155), Entry(156), Entry(157), Entry(158), Entry(159)]
         == [0x22f28336, 0x55f5b3a0, 0xccfce21a, 0xbbfbd28c, 0x259f472f, 0x529877b9, 0xcb912603, 0xbc961695,
             0x2c290b04, 0x5b2e3b92, 0xc2276a28, 0xb5205abe, 0x2b44cf1d, 0x5c43ff8b, 0xc54aae31, 0xb24d9ea7]
  {
  }

  lemma TableRow10()
    ensures [Entry(160), Entry(161), Entry(162), Entry(163), Entry(164), Entry(165), Entry(166), Entry(167),
             Entry(168), Entry(169), Entry(170), Entry(171), Entry(172), Entry(173), Entry(174), Entry(175)]
         == [0x42bb39a, 0x732c830c, 0xea25d2b6, 0x9d22e220, 0x3467783, 0x74414715, 0xed4816af, 0x9a4f2639,
             0xaf03ba8, 0x7df70b3e, 0xe4fe5a84, 0x93f96a12, 0xd9dffb1, 0x7a9acf27, 0xe3939e9d, 0x9494ae0b]
  {
  }

  lemma TableRow11()
    ensures [Entry(176), Entry(177), Entry(178), Entry(179), Entry(180), Entry(181), Entry(182), Entry(183),
             Entry(184), Entry(185), Entry(186), Entry(187), Entry(188), Entry(189), Entry(190), Entry(191)]
         == [0x199ca3fe, 0x6e9b9368, 0xf792c2d2, 0x8095f244, 0x1ef167e7, 0x69f65771, 0xf0ff06cb, 0x87f8365d,
             0x17472bcc, 0x60401b5a, 0xf9494ae0, 0x8e4e7a76, 0x102aefd5, 0x672ddf43, 0xfe248ef9, 0x8923be6f]
  {
  }

  lemma TableRow12()
    ensures [Entry(192), Entry(193), Entry(194), Entry(195), Entry(196), Entry(197), Entry(198), Entry(199),
             Entry(200), Entry(201), Entry(202), Entry(203), Entry(204), Entry(205), Entry(206), Entry(207)]
         == [0x4999d2c2, 0x3e9ee254, 0xa797b3ee, 0xd0908378, 0x4ef416db, 0x39f3264d, 0xa0fa77f7, 0xd7fd4761,
             0x47425af0, 0x30456a66, 0xa94c3bdc, 0xde4b0b4a, 0x402f9ee9, 0x3728ae7f, 0xae21ffc5, 0xd926cf53]
  {
  }

  lemma TableRow13()
    ensures [Entry(208), Entry(209), Entry(210), Entry(211), Entry(212), Entry(213), Entry(214), Entry(215),
             Entry(216), Entry(217), Entry(218), Entry(219), Entry(220), Entry(221), Entry(222), Entry(223)]
         == [0x542ec2a6, 0x2329f230, 0xba20a38a, 0xcd27931c, 0x534306bf, 0x24443629, 0xbd4d6793, 0xca4a5705,
             0x5af54a94, 0x2df27a02, 0xb4fb2bb8, 0xc3fc1b2e, 0x5d988e8d, 0x2a9fbe1b, 0xb396efa1, 0xc491df37]
  {
  }

  lemma TableRow14()
    ensures [Entry(224), Entry(225), Entry(226), Entry(227), Entry(228), Entry(229), Entry(230), Entry(231),
             Entry(232), Entry(233), Entry(234), Entry(235), Entry(236), Entry(237), Entry(238), Entry(239)]
         == [0x72f7f20a, 0x5f0c29c, 0x9cf99326, 0xebfea3b0, 0x759a3613, 0x29d0685, 0x9b94573f, 0xec9367a9,
             0x7c2c7a38, 0xb2b4aae, 0x92221b14, 0xe5252b82, 0x7b41be21, 0xc468eb7, 0x954fdf0d, 0xe248ef9b]
  {
  }

  lemma TableRow15()
    ensures [Entry(240), Entry(241), Entry(242), Entry(243), Entry(244), Entry(245), Entry(246), Entry(247),
             Entry(248), Entry(249), Entry(250), Entry(251), Entry(252), Entry(253), Entry(254), Entry(255)]
         == [0x6f40e26e, 0x1847d2f8, 0x814e8342, 0xf649b3d4, 0x682d2677, 0x1f2a16e1, 0x8623475b, 0xf12477cd,
             0x619b6a5c, 0x169c5aca, 0x8f950b70, 0xf8923be6, 0x66f6ae45, 0x11f19ed3, 0x88f8cf69, 0xffffffff]
  {
  }

  /** The table index used for register `c` and input byte `b`; the mask
      keeps it inside the 256-entry table. */
  function Index(c: u32, b: byte): (i: bv32)
    ensures i < 256
  {
    ((c as bv32) ^ (b as bv32)) & 0xFF
  }

  /** One turn of the checksum loop on the `uint` register `c`:
      `((~c >> 8) & 0x00FFFFFF) ^ tab[(c ^ b) & 0xFF]`. */
  function Step(c: u32, b: byte): u32 {
    (((!(c as bv32) >> 8) & 0x00FF_FFFF) ^ Entry(Index(c, b))) as int
  }

  /** The left fold of `Step` over `s`, starting from register `c`. */
  function Fold(c: u32, s: seq<byte>): u32
    decreases |s|, 1
  {
    if s == [] then c else FoldNext(c, s)
  }

  /** One step of the fold on a non-empty `s`: the register after its first
      byte, folded over the rest. */
  function FoldNext(c: u32, s: seq<byte>): u32
    requires s != []
    decreases |s|, 0
  {
    Fold(Step(c, s[0]), s[1..])
  }

  /** The checksum of a byte range: the fold started from 0. */
  function Checksum(s: seq<byte>): u32 {
    Fold(0, s)
  }

  /** Append law: folding `a + b` is folding `b` from where folding `a` stopped. */
  lemma {:induction false} FoldAppend(c: u32, a: seq<byte>, b: seq<byte>)
    ensures Fold(c, a + b) == Fold(Fold(c, a), b)
    decreases |a|
  {
    if a == [] {
      assert a + b == b;
    } else {
      assert (a + b)[0] == a[0];
      assert (a + b)[1..] == a[1..] + b;
      FoldAppend(Step(c, a[0]), a[1..], b);
    }
  }

  /** Folding one byte is one step. */
  lemma FoldOne(c: u32, b: byte)
    ensures Fold(c, [b]) == Step(c, b)
  {
    assert [b][1..] == [];
    assert FoldNext(c, [b]) == Fold(Step(c, b), []);
  }

  /** The checksum of `a + b` continues, byte by byte, from the checksum of `a`. */
  lemma ChecksumAppend(a: seq<byte>, b: seq<byte>)
    ensures Checksum(a + b) == Fold(Checksum(a), b)
  {
    FoldAppend(0, a, b);
  }

  /** `Crc.GetCrc(buffer, offset, length)`: the loop runs while `length > 0`,
      so a range of length zero or less gives 0 and touches no byte; otherwise
      the result is the checksum of exactly `buffer[offset..offset + length]`.
      The caller must keep that range inside the buffer. */
  method GetCrc(buffer: seq<byte>, offset: int, length: int) returns (crc32: u32)
    requires length > 0 ==> 0 <= offset && offset + length <= |buffer|
    ensures crc32 == if length <= 0 then 0 else Checksum(buffer[offset..offset + length])
  {
    crc32 := 0;
    var ix, n := offset, length;
    while n > 0
      invariant length > 0 ==> 0 <= n && offset <= ix <= |buffer| && ix + n == offset + length
      invariant length > 0 ==> crc32 == Checksum(buffer[offset..ix])
      invariant length <= 0 ==> crc32 == 0 && n == length
      decreases n
    {
      ChecksumAppend(buffer[offset..ix], [buffer[ix]]);
      FoldOne(crc32, buffer[ix]);
      assert buffer[offset..ix + 1] == buffer[offset..ix] + [buffer[ix]];
      crc32 := Step(crc32, buffer[ix]);
      n, ix := n - 1, ix + 1;
    }
  }
}
