// The CRC-32 table: gnu-efi/lib/crc.c.

module CrcTable {
  const POLYNOMIAL: bv32 := 0xEDB88320

  // One bit of the reflected shift register.
  function Shift(c: bv32): bv32 {
    if c & 1 == 1 then (c >> 1) ^ POLYNOMIAL else c >> 1
  }

  function Eight(c: bv32): bv32 {
    Shift(Shift(Shift(Shift(Shift(Shift(Shift(Shift(c))))))))
  }

  // One of sixteen neighbouring entries.
  function Row(i: bv8,
      a0: bv32, a1: bv32, a2: bv32, a3: bv32, a4: bv32, a5: bv32, a6: bv32, a7: bv32,
      a8: bv32, a9: bv32, a10: bv32, a11: bv32, a12: bv32, a13: bv32, a14: bv32, a15: bv32): bv32
  {
    var j := i & 0x0F;
    if j < 0x08 then
      if j < 0x04 then (if j < 0x02 then (if j < 0x01 then a0 else a1) else if j < 0x03 then a2 else a3)
      else (if j < 0x06 then (if j < 0x05 then a4 else a5) else if j < 0x07 then a6 else a7)
    else
      if j < 0x0C then (if j < 0x0A then (if j < 0x09 then a8 else a9) else if j < 0x0B then a10 else a11)
      else (if j < 0x0E then (if j < 0x0D then a12 else a13) else if j < 0x0F then a14 else a15)
  }

  function CRCTable(i: bv8): bv32 {
    if i < 0x80 then
      if i < 0x40 then
        if i < 0x20 then
          if i < 0x10 then
            Row(i,
              0x00000000, 0x77073096, 0xEE0E612C, 0x990951BA, 0x076DC419, 0x706AF48F, 0xE963A535, 0x9E6495A3,
              0x0EDB8832, 0x79DCB8A4, 0xE0D5E91E, 0x97D2D988, 0x09B64C2B, 0x7EB17CBD, 0xE7B82D07, 0x90BF1D91)
          else
            Row(i,
              0x1DB71064, 0x6AB020F2, 0xF3B97148, 0x84BE41DE, 0x1ADAD47D, 0x6DDDE4EB, 0xF4D4B551, 0x83D385C7,
              0x136C9856, 0x646BA8C0, 0xFD62F97A, 0x8A65C9EC, 0x14015C4F, 0x63066CD9, 0xFA0F3D63, 0x8D080DF5)
        else
          if i < 0x30 then
            Row(i,
              0x3B6E20C8, 0x4C69105E, 0xD56041E4, 0xA2677172, 0x3C03E4D1, 0x4B04D447, 0xD20D85FD, 0xA50AB56B,
              0x35B5A8FA, 0x42B2986C, 0xDBBBC9D6, 0xACBCF940, 0x32D86CE3, 0x45DF5C75, 0xDCD60DCF, 0xABD13D59)
          else
            Row(i,
              0x26D930AC, 0x51DE003A, 0xC8D75180, 0xBFD06116, 0x21B4F4B5, 0x56B3C423, 0xCFBA9599, 0xB8BDA50F,
              0x2802B89E, 0x5F058808, 0xC60CD9B2, 0xB10BE924, 0x2F6F7C87, 0x58684C11, 0xC1611DAB, 0xB6662D3D)
      else
        if i < 0x60 then
          if i < 0x50 then
            Row(i,
              0x76DC4190, 0x01DB7106, 0x98D220BC, 0xEFD5102A, 0x71B18589, 0x06B6B51F, 0x9FBFE4A5, 0xE8B8D433,
              0x7807C9A2, 0x0F00F934, 0x9609A88E, 0xE10E9818, 0x7F6A0DBB, 0x086D3D2D, 0x91646C97, 0xE6635C01)
          else
            Row(i,
              0x6B6B51F4, 0x1C6C6162, 0x856530D8, 0xF262004E, 0x6C0695ED, 0x1B01A57B, 0x8208F4C1, 0xF50FC457,
              0x65B0D9C6, 0x12B7E950, 0x8BBEB8EA, 0xFCB9887C, 0x62DD1DDF, 0x15DA2D49, 0x8CD37CF3, 0xFBD44C65)
        else
          if i < 0x70 then
            Row(i,
              0x4DB26158, 0x3AB551CE, 0xA3BC0074, 0xD4BB30E2, 0x4ADFA541, 0x3DD895D7, 0xA4D1C46D, 0xD3D6F4FB,
              0x4369E96A, 0x346ED9FC, 0xAD678846, 0xDA60B8D0, 0x44042D73, 0x33031DE5, 0xAA0A4C5F, 0xDD0D7CC9)
          else
            Row(i,
              0x5005713C, 0x270241AA, 0xBE0B1010, 0xC90C2086, 0x5768B525, 0x206F85B3, 0xB966D409, 0xCE61E49F,
              0x5EDEF90E, 0x29D9C998, 0xB0D09822, 0xC7D7A8B4, 0x59B33D17, 0x2EB40D81, 0xB7BD5C3B, 0xC0BA6CAD)
    else
      if i < 0xC0 then
        if i < 0xA0 then
          if i < 0x90 then
            Row(i,
              0xEDB88320, 0x9ABFB3B6, 0x03B6E20C, 0x74B1D29A, 0xEAD54739, 0x9DD277AF, 0x04DB2615, 0x73DC1683,
              0xE3630B12, 0x94643B84, 0x0D6D6A3E, 0x7A6A5AA8, 0xE40ECF0B, 0x9309FF9D, 0x0A00AE27, 0x7D079EB1)
          else
            Row(i,
              0xF00F9344, 0x8708A3D2, 0x1E01F268, 0x6906C2FE, 0xF762575D, 0x806567CB, 0x196C3671, 0x6E6B06E7,
              0xFED41B76, 0x89D32BE0, 0x10DA7A5A, 0x67DD4ACC, 0xF9B9DF6F, 0x8EBEEFF9, 0x17B7BE43, 0x60B08ED5)
        else
          if i < 0xB0 then
            Row(i,
              0xD6D6A3E8, 0xA1D1937E, 0x38D8C2C4, 0x4FDFF252, 0xD1BB67F1, 0xA6BC5767, 0x3FB506DD, 0x48B2364B,
              0xD80D2BDA, 0xAF0A1B4C, 0x36034AF6, 0x41047A60, 0xDF60EFC3, 0xA867DF55, 0x316E8EEF, 0x4669BE79)
          else
            Row(i,
              0xCB61B38C, 0xBC66831A, 0x256FD2A0, 0x5268E236, 0xCC0C7795, 0xBB0B4703, 0x220216B9, 0x5505262F,
              0xC5BA3BBE, 0xB2BD0B28, 0x2BB45A92, 0x5CB36A04, 0xC2D7FFA7, 0xB5D0CF31, 0x2CD99E8B, 0x5BDEAE1D)
      else
        if i < 0xE0 then
          if i < 0xD0 then
            Row(i,
              0x9B64C2B0, 0xEC63F226, 0x756AA39C, 0x026D930A, 0x9C0906A9, 0xEB0E363F, 0x72076785, 0x05005713,
              0x95BF4A82, 0xE2B87A14, 0x7BB12BAE, 0x0CB61B38, 0x92D28E9B, 0xE5D5BE0D, 0x7CDCEFB7, 0x0BDBDF21)
          else
            Row(i,
              0x86D3D2D4, 0xF1D4E242, 0x68DDB3F8, 0x1FDA836E, 0x81BE16CD, 0xF6B9265B, 0x6FB077E1, 0x18B74777,
              0x88085AE6, 0xFF0F6A70, 0x66063BCA, 0x11010B5C, 0x8F659EFF, 0xF862AE69, 0x616BFFD3, 0x166CCF45)
        else
          if i < 0xF0 then
            Row(i,
              0xA00AE278, 0xD70DD2EE, 0x4E048354, 0x3903B3C2, 0xA7672661, 0xD06016F7, 0x4969474D, 0x3E6E77DB,
              0xAED16A4A, 0xD9D65ADC, 0x40DF0B66, 0x37D83BF0, 0xA9BCAE53, 0xDEBB9EC5, 0x47B2CF7F, 0x30B5FFE9)
          else
            Row(i,
              0xBDBDF21C, 0xCABAC28A, 0x53B39330, 0x24B4A3A6, 0xBAD03605, 0xCDD70693, 0x54DE5729, 0x23D967BF,
              0xB3667A2E, 0xC4614AB8, 0x5D681B02, 0x2A6F2B94, 0xB40BBE37, 0xC30C8EA1, 0x5A05DF1B, 0x2D02EF8D)
  }

  lemma Rows0(i: bv8)
    requires i < 0x20
    ensures CRCTable(i) == Eight(i as bv32)
  {
    match i
    case 0x00 => case 0x01 => case 0x02 => case 0x03 => case 0x04 => case 0x05 => case 0x06 => case 0x07 =>
    case 0x08 => case 0x09 => case 0x0A => case 0x0B => case 0x0C => case 0x0D => case 0x0E => case 0x0F =>
    case 0x10 => case 0x11 => case 0x12 => case 0x13 => case 0x14 => case 0x15 => case 0x16 => case 0x17 =>
    case 0x18 => case 0x19 => case 0x1A => case 0x1B => case 0x1C => case 0x1D => case 0x1E => case 0x1F =>
    case _ =>
  }

  lemma Rows1(i: bv8)
    requires 0x20 <= i < 0x40
    ensures CRCTable(i) == Eight(i as bv32)
  {
    match i
    case 0x20 => case 0x21 => case 0x22 => case 0x23 => case 0x24 => case 0x25 => case 0x26 => case 0x27 =>
    case 0x28 => case 0x29 => case 0x2A => case 0x2B => case 0x2C => case 0x2D => case 0x2E => case 0x2F =>
    case 0x30 => case 0x31 => case 0x32 => case 0x33 => case 0x34 => case 0x35 => case 0x36 => case 0x37 =>
    case 0x38 => case 0x39 => case 0x3A => case 0x3B => case 0x3C => case 0x3D => case 0x3E => case 0x3F =>
    case _ =>
  }

  lemma Rows2(i: bv8)
    requires 0x40 <= i < 0x60
    ensures CRCTable(i) == Eight(i as bv32)
  {
    match i
    case 0x40 => case 0x41 => case 0x42 => case 0x43 => case 0x44 => case 0x45 => case 0x46 => case 0x47 =>
    case 0x48 => case 0x49 => case 0x4A => case 0x4B => case 0x4C => case 0x4D => case 0x4E => case 0x4F =>
    case 0x50 => case 0x51 => case 0x52 => case 0x53 => case 0x54 => case 0x55 => case 0x56 => case 0x57 =>
    case 0x58 => case 0x59 => case 0x5A => case 0x5B => case 0x5C => case 0x5D => case 0x5E => case 0x5F =>
    case _ =>
  }

  lemma Rows3(i: bv8)
    requires 0x60 <= i < 0x80
    ensures CRCTable(i) == Eight(i as bv32)
  {
    match i
    case 0x60 => case 0x61 => case 0x62 => case 0x63 => case 0x64 => case 0x65 => case 0x66 => case 0x67 =>
    case 0x68 => case 0x69 => case 0x6A => case 0x6B => case 0x6C => case 0x6D => case 0x6E => case 0x6F =>
    case 0x70 => case 0x71 => case 0x72 => case 0x73 => case 0x74 => case 0x75 => case 0x76 => case 0x77 =>
    case 0x78 => case 0x79 => case 0x7A => case 0x7B => case 0x7C => case 0x7D => case 0x7E => case 0x7F =>
    case _ =>
  }

  lemma Rows4(i: bv8)
    requires 0x80 <= i < 0xA0
    ensures CRCTable(i) == Eight(i as bv32)
  {
    match i
    case 0x80 => case 0x81 => case 0x82 => case 0x83 => case 0x84 => case 0x85 => case 0x86 => case 0x87 =>
    case 0x88 => case 0x89 => case 0x8A => case 0x8B => case 0x8C => case 0x8D => case 0x8E => case 0x8F =>
    case 0x90 => case 0x91 => case 0x92 => case 0x93 => case 0x94 => case 0x95 => case 0x96 => case 0x97 =>
    case 0x98 => case 0x99 => case 0x9A => case 0x9B => case 0x9C => case 0x9D => case 0x9E => case 0x9F =>
    case _ =>
  }

  lemma Rows5(i: bv8)
    requires 0xA0 <= i < 0xC0
    ensures CRCTable(i) == Eight(i as bv32)
  {
    match i
    case 0xA0 => case 0xA1 => case 0xA2 => case 0xA3 => case 0xA4 => case 0xA5 => case 0xA6 => case 0xA7 =>
    case 0xA8 => case 0xA9 => case 0xAA => case 0xAB => case 0xAC => case 0xAD => case 0xAE => case 0xAF =>
    case 0xB0 => case 0xB1 => case 0xB2 => case 0xB3 => case 0xB4 => case 0xB5 => case 0xB6 => case 0xB7 =>
    case 0xB8 => case 0xB9 => case 0xBA => case 0xBB => case 0xBC => case 0xBD => case 0xBE => case 0xBF =>
    case _ =>
  }

  lemma Rows6(i: bv8)
    requires 0xC0 <= i < 0xE0
    ensures CRCTable(i) == Eight(i as bv32)
  {
    match i
    case 0xC0 => case 0xC1 => case 0xC2 => case 0xC3 => case 0xC4 => case 0xC5 => case 0xC6 => case 0xC7 =>
    case 0xC8 => case 0xC9 => case 0xCA => case 0xCB => case 0xCC => case 0xCD => case 0xCE => case 0xCF =>
    case 0xD0 => case 0xD1 => case 0xD2 => case 0xD3 => case 0xD4 => case 0xD5 => case 0xD6 => case 0xD7 =>
    case 0xD8 => case 0xD9 => case 0xDA => case 0xDB => case 0xDC => case 0xDD => case 0xDE => case 0xDF =>
    case _ =>
  }

  lemma Rows7(i: bv8)
    requires 0xE0 <= i
    ensures CRCTable(i) == Eight(i as bv32)
  {
    match i
    case 0xE0 => case 0xE1 => case 0xE2 => case 0xE3 => case 0xE4 => case 0xE5 => case 0xE6 => case 0xE7 =>
    case 0xE8 => case 0xE9 => case 0xEA => case 0xEB => case 0xEC => case 0xED => case 0xEE => case 0xEF =>
    case 0xF0 => case 0xF1 => case 0xF2 => case 0xF3 => case 0xF4 => case 0xF5 => case 0xF6 => case 0xF7 =>
    case 0xF8 => case 0xF9 => case 0xFA => case 0xFB => case 0xFC => case 0xFD => case 0xFE => case 0xFF =>
    case _ =>
  }

  /** Every entry of the table is eight shifts of its index. */
  lemma TableExact(i: bv8)
    ensures CRCTable(i) == Eight(i as bv32)
  {
    if i < 0x20 {
      Rows0(i);
    } else if i < 0x40 {
      Rows1(i);
    } else if i < 0x60 {
      Rows2(i);
    } else if i < 0x80 {
      Rows3(i);
    } else if i < 0xA0 {
      Rows4(i);
    } else if i < 0xC0 {
      Rows5(i);
    } else if i < 0xE0 {
      Rows6(i);
    } else {
      Rows7(i);
    }
  }
}
