/**
 The look-up tables of src/rtulayer.cpp and the byte-at-a-time loop that
 uses them. `CrcHiTable` and `CrcLoTable` in the source are arrays of 256 bytes;
 here each is a total function, written as the same data in rows of sixteen.
 */
module CrcTables {
  import opened Bytes
  import opened CrcReference

  /** Entry `c` of a row of sixteen. */
  function Pick(c: byte,
                e0: byte, e1: byte, e2: byte, e3: byte, e4: byte, e5: byte, e6: byte, e7: byte,
                e8: byte, e9: byte, eA: byte, eB: byte, eC: byte, eD: byte, eE: byte, eF: byte): byte {
    match c
    case 0x0 => e0 case 0x1 => e1 case 0x2 => e2 case 0x3 => e3
    case 0x4 => e4 case 0x5 => e5 case 0x6 => e6 case 0x7 => e7
    case 0x8 => e8 case 0x9 => e9 case 0xA => eA case 0xB => eB
    case 0xC => eC case 0xD => eD case 0xE => eE case _ => eF
  }

  function CrcHiTable(i: byte): byte {
    var c := i & 0x0F;
    match i >> 4
    case 0x0 => Pick(c, 0x00, 0xC1, 0x81, 0x40, 0x01, 0xC0, 0x80, 0x41, 0x01, 0xC0, 0x80, 0x41, 0x00, 0xC1, 0x81, 0x40)
    case 0x1 => Pick(c, 0x01, 0xC0, 0x80, 0x41, 0x00, 0xC1, 0x81, 0x40, 0x00, 0xC1, 0x81, 0x40, 0x01, 0xC0, 0x80, 0x41)
    case 0x2 => Pick(c, 0x01, 0xC0, 0x80, 0x41, 0x00, 0xC1, 0x81, 0x40, 0x00, 0xC1, 0x81, 0x40, 0x01, 0xC0, 0x80, 0x41)
    case 0x3 => Pick(c, 0x00, 0xC1, 0x81, 0x40, 0x01, 0xC0, 0x80, 0x41, 0x01, 0xC0, 0x80, 0x41, 0x00, 0xC1, 0x81, 0x40)
    case 0x4 => Pick(c, 0x01, 0xC0, 0x80, 0x41, 0x00, 0xC1, 0x81, 0x40, 0x00, 0xC1, 0x81, 0x40, 0x01, 0xC0, 0x80, 0x41)
    case 0x5 => Pick(c, 0x00, 0xC1, 0x81, 0x40, 0x01, 0xC0, 0x80, 0x41, 0x01, 0xC0, 0x80, 0x41, 0x00, 0xC1, 0x81, 0x40)
    case 0x6 => Pick(c, 0x00, 0xC1, 0x81, 0x40, 0x01, 0xC0, 0x80, 0x41, 0x01, 0xC0, 0x80, 0x41, 0x00, 0xC1, 0x81, 0x40)
    case 0x7 => Pick(c, 0x01, 0xC0, 0x80, 0x41, 0x00, 0xC1, 0x81, 0x40, 0x00, 0xC1, 0x81, 0x40, 0x01, 0xC0, 0x80, 0x41)
    case 0x8 => Pick(c, 0x01, 0xC0, 0x80, 0x41, 0x00, 0xC1, 0x81, 0x40, 0x00, 0xC1, 0x81, 0x40, 0x01, 0xC0, 0x80, 0x41)
    case 0x9 => Pick(c, 0x00, 0xC1, 0x81, 0x40, 0x01, 0xC0, 0x80, 0x41, 0x01, 0xC0, 0x80, 0x41, 0x00, 0xC1, 0x81, 0x40)
    case 0xA => Pick(c, 0x00, 0xC1, 0x81, 0x40, 0x01, 0xC0, 0x80, 0x41, 0x01, 0xC0, 0x80, 0x41, 0x00, 0xC1, 0x81, 0x40)
    case 0xB => Pick(c, 0x01, 0xC0, 0x80, 0x41, 0x00, 0xC1, 0x81, 0x40, 0x00, 0xC1, 0x81, 0x40, 0x01, 0xC0, 0x80, 0x41)
    case 0xC => Pick(c, 0x00, 0xC1, 0x81, 0x40, 0x01, 0xC0, 0x80, 0x41, 0x01, 0xC0, 0x80, 0x41, 0x00, 0xC1, 0x81, 0x40)
    case 0xD => Pick(c, 0x01, 0xC0, 0x80, 0x41, 0x00, 0xC1, 0x81, 0x40, 0x00, 0xC1, 0x81, 0x40, 0x01, 0xC0, 0x80, 0x41)
    case 0xE => Pick(c, 0x01, 0xC0, 0x80, 0x41, 0x00, 0xC1, 0x81, 0x40, 0x00, 0xC1, 0x81, 0x40, 0x01, 0xC0, 0x80, 0x41)
    case _ => Pick(c, 0x00, 0xC1, 0x81, 0x40, 0x01, 0xC0, 0x80, 0x41, 0x01, 0xC0, 0x80, 0x41, 0x00, 0xC1, 0x81, 0x40)
  }

  function CrcLoTable(i: byte): byte {
    var c := i & 0x0F;
    match i >> 4
    case 0x0 => Pick(c, 0x00, 0xC0, 0xC1, 0x01, 0xC3, 0x03, 0x02, 0xC2, 0xC6, 0x06, 0x07, 0xC7, 0x05, 0xC5, 0xC4, 0x04)
    case 0x1 => Pick(c, 0xCC, 0x0C, 0x0D, 0xCD, 0x0F, 0xCF, 0xCE, 0x0E, 0x0A, 0xCA, 0xCB, 0x0B, 0xC9, 0x09, 0x08, 0xC8)
    case 0x2 => Pick(c, 0xD8, 0x18, 0x19, 0xD9, 0x1B, 0xDB, 0xDA, 0x1A, 0x1E, 0xDE, 0xDF, 0x1F, 0xDD, 0x1D, 0x1C, 0xDC)
    case 0x3 => Pick(c, 0x14, 0xD4, 0xD5, 0x15, 0xD7, 0x17, 0x16, 0xD6, 0xD2, 0x12, 0x13, 0xD3, 0x11, 0xD1, 0xD0, 0x10)
    case 0x4 => Pick(c, 0xF0, 0x30, 0x31, 0xF1, 0x33, 0xF3, 0xF2, 0x32, 0x36, 0xF6, 0xF7, 0x37, 0xF5, 0x35, 0x34, 0xF4)
    case 0x5 => Pick(c, 0x3C, 0xFC, 0xFD, 0x3D, 0xFF, 0x3F, 0x3E, 0xFE, 0xFA, 0x3A, 0x3B, 0xFB, 0x39, 0xF9, 0xF8, 0x38)
    case 0x6 => Pick(c, 0x28, 0xE8, 0xE9, 0x29, 0xEB, 0x2B, 0x2A, 0xEA, 0xEE, 0x2E, 0x2F, 0xEF, 0x2D, 0xED, 0xEC, 0x2C)
    case 0x7 => Pick(c, 0xE4, 0x24, 0x25, 0xE5, 0x27, 0xE7, 0xE6, 0x26, 0x22, 0xE2, 0xE3, 0x23, 0xE1, 0x21, 0x20, 0xE0)
    case 0x8 => Pick(c, 0xA0, 0x60, 0x61, 0xA1, 0x63, 0xA3, 0xA2, 0x62, 0x66, 0xA6, 0xA7, 0x67, 0xA5, 0x65, 0x64, 0xA4)
    case 0x9 => Pick(c, 0x6C, 0xAC, 0xAD, 0x6D, 0xAF, 0x6F, 0x6E, 0xAE, 0xAA, 0x6A, 0x6B, 0xAB, 0x69, 0xA9, 0xA8, 0x68)
    case 0xA => Pick(c, 0x78, 0xB8, 0xB9, 0x79, 0xBB, 0x7B, 0x7A, 0xBA, 0xBE, 0x7E, 0x7F, 0xBF, 0x7D, 0xBD, 0xBC, 0x7C)
    case 0xB => Pick(c, 0xB4, 0x74, 0x75, 0xB5, 0x77, 0xB7, 0xB6, 0x76, 0x72, 0xB2, 0xB3, 0x73, 0xB1, 0x71, 0x70, 0xB0)
    case 0xC => Pick(c, 0x50, 0x90, 0x91, 0x51, 0x93, 0x53, 0x52, 0x92, 0x96, 0x56, 0x57, 0x97, 0x55, 0x95, 0x94, 0x54)
    case 0xD => Pick(c, 0x9C, 0x5C, 0x5D, 0x9D, 0x5F, 0x9F, 0x9E, 0x5E, 0x5A, 0x9A, 0x9B, 0x5B, 0x99, 0x59, 0x58, 0x98)
    case 0xE => Pick(c, 0x88, 0x48, 0x49, 0x89, 0x4B, 0x8B, 0x8A, 0x4A, 0x4E, 0x8E, 0x8F, 0x4F, 0x8D, 0x4D, 0x4C, 0x8C)
    case _ => Pick(c, 0x44, 0x84, 0x85, 0x45, 0x87, 0x47, 0x46, 0x86, 0x82, 0x42, 0x43, 0x83, 0x41, 0x81, 0x80, 0x40)
  }

  predicate TablesHold(i: byte) {
    Join(CrcLoTable(i), CrcHiTable(i)) == Shift8(i as word)
  }

  lemma TableRows0(i: byte)
    requires i >> 5 == 0
    ensures TablesHold(i)
  {
    if i >> 4 == 0x0 {
    } else {
      assert i >> 4 == 0x1;
    }
  }

  lemma TableRows1(i: byte)
    requires i >> 5 == 1
    ensures TablesHold(i)
  {
    if i >> 4 == 0x2 {
    } else {
      assert i >> 4 == 0x3;
    }
  }

  lemma TableRows2(i: byte)
    requires i >> 5 == 2
    ensures TablesHold(i)
  {
    if i >> 4 == 0x4 {
    } else {
      assert i >> 4 == 0x5;
    }
  }

  lemma TableRows3(i: byte)
    requires i >> 5 == 3
    ensures TablesHold(i)
  {
    if i >> 4 == 0x6 {
    } else {
      assert i >> 4 == 0x7;
    }
  }

  lemma TableRows4(i: byte)
    requires i >> 5 == 4
    ensures TablesHold(i)
  {
    if i >> 4 == 0x8 {
    } else {
      assert i >> 4 == 0x9;
    }
  }

  lemma TableRows5(i: byte)
    requires i >> 5 == 5
    ensures TablesHold(i)
  {
    if i >> 4 == 0xA {
    } else {
      assert i >> 4 == 0xB;
    }
  }

  lemma TableRows6(i: byte)
    requires i >> 5 == 6
    ensures TablesHold(i)
  {
    if i >> 4 == 0xC {
    } else {
      assert i >> 4 == 0xD;
    }
  }

  lemma TableRows7(i: byte)
    requires i >> 5 == 7
    ensures TablesHold(i)
  {
    if i >> 4 == 0xE {
    } else {
      assert i >> 4 == 0xF;
    }
  }

  /** All 256 entries of both tables are eight shifts of their index. */
  lemma TablesAreShifts(i: byte)
    ensures Join(CrcLoTable(i), CrcHiTable(i)) == Shift8(i as word)
  {
    hide CrcLoTable, CrcHiTable, Shift8, Join;
    EightGroups(i);
    if i >> 5 == 0 {
      TableRows0(i);
    } else if i >> 5 == 1 {
      TableRows1(i);
    } else if i >> 5 == 2 {
      TableRows2(i);
    } else if i >> 5 == 3 {
      TableRows3(i);
    } else if i >> 5 == 4 {
      TableRows4(i);
    } else if i >> 5 == 5 {
      TableRows5(i);
    } else if i >> 5 == 6 {
      TableRows6(i);
    } else {
      TableRows7(i);
    }
  }

  lemma EightGroups(i: byte)
    ensures i >> 5 == 0 || i >> 5 == 1 || i >> 5 == 2 || i >> 5 == 3
         || i >> 5 == 4 || i >> 5 == 5 || i >> 5 == 6 || i >> 5 == 7
  {
  }

  /** The word `crc16` returns: the standard register, byte-swapped. */
  function Crc16Of(s: seq<byte>): word {
    Swapped(Crc(s))
  }

  /** One round of the loop: `crcHi` holds the low-order half of the register. */
  lemma TableStep(crcHi: byte, crcLo: byte, b: byte)
    ensures FeedByte(Join(crcLo, crcHi), b)
         == Join(CrcLoTable(crcHi ^ b), crcLo ^ CrcHiTable(crcHi ^ b))
  {
    hide *;
    FeedByteSplit(crcLo, crcHi, b);
    TablesAreShifts(crcHi ^ b);
    JoinPlus(crcLo, CrcLoTable(crcHi ^ b), CrcHiTable(crcHi ^ b));
  }

  lemma JoinPlus(x: byte, hi: byte, lo: byte)
    ensures Plus(x as word, Join(hi, lo)) == Join(hi, x ^ lo)
  {
  }

  lemma JoinedPreset()
    ensures Join(0xFF, 0xFF) == PRESET
  {
  }

  /** RtuLayer::crc16: one table look-up per byte. */
  method Crc16(buf: array<byte>, count: nat) returns (crc: word)
    requires count <= buf.Length
    ensures crc == Crc16Of(buf[..count])
  {
    hide CrcLoTable, CrcHiTable, FeedByte, Join, Low, High;
    var crcHi: byte, crcLo: byte := 0xFF, 0xFF;
    var left, p := count, 0;
    JoinedPreset();
    while left != 0
      invariant p + left == count
      invariant Join(crcLo, crcHi) == Crc(buf[..p])
    {
      left := left - 1;
      var i := crcHi ^ buf[p];
      TableStep(crcHi, crcLo, buf[p]);
      assert buf[..p + 1][..p] == buf[..p];
      crcHi, crcLo := crcLo ^ CrcHiTable(i), CrcLoTable(i);
      p := p + 1;
    }
    crc := Join(crcHi, crcLo);
    JoinParts(crc, crcLo, crcHi);
  }
}
