/** The CRC-32 of partition tables. */
module Crc32 {

  type Byte = bv8

  /** One bit of the bit-serial CRC of section 8 of RFC 1952. */
  function BitStep(c: bv32): bv32 {
    if c & 1 == 1 then (c >> 1) ^ 0xEDB88320 else c >> 1
  }

  function NibbleStep(c: bv32): bv32 {
    BitStep(BitStep(BitStep(BitStep(c))))
  }

  /** Eight bits. */
  function ByteStep(c: bv32): bv32 {
    NibbleStep(NibbleStep(c))
  }

  function Xor(a: bv32, b: bv32): bv32 {
    a ^ b
  }

  function Wide(b: Byte): bv32 {
    b as bv32
  }

  /** The running value after a sequence of bytes, bit by bit. */
  function Serial(c: bv32, bytes: seq<Byte>): bv32
    decreases bytes
  {
    if bytes == [] then c else Serial(ByteStep(Xor(c, Wide(bytes[0]))), bytes[1..])
  }

  /** Conditioning before and after: all bits are turned over. */
  function Flip(c: bv32): bv32 {
    c ^ 0xFFFFFFFF
  }

  /** The CRC of a buffer that continues one whose CRC is crc. */
  function Crc(crc: bv32, bytes: seq<Byte>): bv32 {
    Flip(Serial(Flip(crc), bytes))
  }

  /** crcTable, sixteen entries a row. */
  const CRC_TABLE: seq<seq<bv32>> := [
    [0x00000000, 0x77073096, 0xEE0E612C, 0x990951BA, 0x076DC419, 0x706AF48F, 0xE963A535, 0x9E6495A3,
     0x0EDB8832, 0x79DCB8A4, 0xE0D5E91E, 0x97D2D988, 0x09B64C2B, 0x7EB17CBD, 0xE7B82D07, 0x90BF1D91],
    [0x1DB71064, 0x6AB020F2, 0xF3B97148, 0x84BE41DE, 0x1ADAD47D, 0x6DDDE4EB, 0xF4D4B551, 0x83D385C7,
     0x136C9856, 0x646BA8C0, 0xFD62F97A, 0x8A65C9EC, 0x14015C4F, 0x63066CD9, 0xFA0F3D63, 0x8D080DF5],
    [0x3B6E20C8, 0x4C69105E, 0xD56041E4, 0xA2677172, 0x3C03E4D1, 0x4B04D447, 0xD20D85FD, 0xA50AB56B,
     0x35B5A8FA, 0x42B2986C, 0xDBBBC9D6, 0xACBCF940, 0x32D86CE3, 0x45DF5C75, 0xDCD60DCF, 0xABD13D59],
    [0x26D930AC, 0x51DE003A, 0xC8D75180, 0xBFD06116, 0x21B4F4B5, 0x56B3C423, 0xCFBA9599, 0xB8BDA50F,
     0x2802B89E, 0x5F058808, 0xC60CD9B2, 0xB10BE924, 0x2F6F7C87, 0x58684C11, 0xC1611DAB, 0xB6662D3D],
    [0x76DC4190, 0x01DB7106, 0x98D220BC, 0xEFD5102A, 0x71B18589, 0x06B6B51F, 0x9FBFE4A5, 0xE8B8D433,
     0x7807C9A2, 0x0F00F934, 0x9609A88E, 0xE10E9818, 0x7F6A0DBB, 0x086D3D2D, 0x91646C97, 0xE6635C01],
    [0x6B6B51F4, 0x1C6C6162, 0x856530D8, 0xF262004E, 0x6C0695ED, 0x1B01A57B, 0x8208F4C1, 0xF50FC457,
     0x65B0D9C6, 0x12B7E950, 0x8BBEB8EA, 0xFCB9887C, 0x62DD1DDF, 0x15DA2D49, 0x8CD37CF3, 0xFBD44C65],
    [0x4DB26158, 0x3AB551CE, 0xA3BC0074, 0xD4BB30E2, 0x4ADFA541, 0x3DD895D7, 0xA4D1C46D, 0xD3D6F4FB,
     0x4369E96A, 0x346ED9FC, 0xAD678846, 0xDA60B8D0, 0x44042D73, 0x33031DE5, 0xAA0A4C5F, 0xDD0D7CC9],
    [0x5005713C, 0x270241AA, 0xBE0B1010, 0xC90C2086, 0x5768B525, 0x206F85B3, 0xB966D409, 0xCE61E49F,
     0x5EDEF90E, 0x29D9C998, 0xB0D09822, 0xC7D7A8B4, 0x59B33D17, 0x2EB40D81, 0xB7BD5C3B, 0xC0BA6CAD],
    [0xEDB88320, 0x9ABFB3B6, 0x03B6E20C, 0x74B1D29A, 0xEAD54739, 0x9DD277AF, 0x04DB2615, 0x73DC1683,
     0xE3630B12, 0x94643B84, 0x0D6D6A3E, 0x7A6A5AA8, 0xE40ECF0B, 0x9309FF9D, 0x0A00AE27, 0x7D079EB1],
    [0xF00F9344, 0x8708A3D2, 0x1E01F268, 0x6906C2FE, 0xF762575D, 0x806567CB, 0x196C3671, 0x6E6B06E7,
     0xFED41B76, 0x89D32BE0, 0x10DA7A5A, 0x67DD4ACC, 0xF9B9DF6F, 0x8EBEEFF9, 0x17B7BE43, 0x60B08ED5],
    [0xD6D6A3E8, 0xA1D1937E, 0x38D8C2C4, 0x4FDFF252, 0xD1BB67F1, 0xA6BC5767, 0x3FB506DD, 0x48B2364B,
     0xD80D2BDA, 0xAF0A1B4C, 0x36034AF6, 0x41047A60, 0xDF60EFC3, 0xA867DF55, 0x316E8EEF, 0x4669BE79],
    [0xCB61B38C, 0xBC66831A, 0x256FD2A0, 0x5268E236, 0xCC0C7795, 0xBB0B4703, 0x220216B9, 0x5505262F,
     0xC5BA3BBE, 0xB2BD0B28, 0x2BB45A92, 0x5CB36A04, 0xC2D7FFA7, 0xB5D0CF31, 0x2CD99E8B, 0x5BDEAE1D],
    [0x9B64C2B0, 0xEC63F226, 0x756AA39C, 0x026D930A, 0x9C0906A9, 0xEB0E363F, 0x72076785, 0x05005713,
     0x95BF4A82, 0xE2B87A14, 0x7BB12BAE, 0x0CB61B38, 0x92D28E9B, 0xE5D5BE0D, 0x7CDCEFB7, 0x0BDBDF21],
    [0x86D3D2D4, 0xF1D4E242, 0x68DDB3F8, 0x1FDA836E, 0x81BE16CD, 0xF6B9265B, 0x6FB077E1, 0x18B74777,
     0x88085AE6, 0xFF0F6A70, 0x66063BCA, 0x11010B5C, 0x8F659EFF, 0xF862AE69, 0x616BFFD3, 0x166CCF45],
    [0xA00AE278, 0xD70DD2EE, 0x4E048354, 0x3903B3C2, 0xA7672661, 0xD06016F7, 0x4969474D, 0x3E6E77DB,
     0xAED16A4A, 0xD9D65ADC, 0x40DF0B66, 0x37D83BF0, 0xA9BCAE53, 0xDEBB9EC5, 0x47B2CF7F, 0x30B5FFE9],
    [0xBDBDF21C, 0xCABAC28A, 0x53B39330, 0x24B4A3A6, 0xBAD03605, 0xCDD70693, 0x54DE5729, 0x23D967BF,
     0xB3667A2E, 0xC4614AB8, 0x5D681B02, 0x2A6F2B94, 0xB40BBE37, 0xC30C8EA1, 0x5A05DF1B, 0x2D02EF8D]
  ]

  lemma TableShape()
    ensures |CRC_TABLE| == 16 && forall k :: 0 <= k < 16 ==> |CRC_TABLE[k]| == 16
  {
  }

  /** Every entry is what eight bit steps make of its index. */
  lemma TableIsSerial(i: bv32)
    requires i < 256
    ensures Entry(i) == ByteStep(i)
  {
    var row, column := i >> 4, i & 0xF;
    assert row < 16 && column < 16 && i == (row << 4) | column;
    if row < 8 {
      UpperRows(row, column);
    } else {
      LowerRows(row, column);
    }
  }

  lemma UpperRows(row: bv32, column: bv32)
    requires row < 8 && column < 16
    ensures |CRC_TABLE| == 16 && |CRC_TABLE[row as int]| == 16
    ensures CRC_TABLE[row as int][column as int] == ByteStep((row << 4) | column)
  {
  }

  lemma LowerRows(row: bv32, column: bv32)
    requires 8 <= row < 16 && column < 16
    ensures |CRC_TABLE| == 16 && |CRC_TABLE[row as int]| == 16
    ensures CRC_TABLE[row as int][column as int] == ByteStep((row << 4) | column)
  {
  }

  /** crcTable[i] */
  function Entry(i: bv32): bv32
    requires i < 256
  {
    TableShape();
    CRC_TABLE[(i >> 4) as int][(i & 0xF) as int]
  }

  // ---------- arithmetic of the bit steps ----------

  lemma LinearBothOdd(a: bv32, b: bv32)
    requires a & 1 == 1 && b & 1 == 1
    ensures BitStep(Xor(a, b)) == Xor(BitStep(a), BitStep(b))
  {
  }

  lemma LinearOneOdd(a: bv32, b: bv32)
    requires a & 1 == 0 && b & 1 == 1
    ensures BitStep(Xor(a, b)) == Xor(BitStep(a), BitStep(b))
  {
  }

  lemma LinearBothEven(a: bv32, b: bv32)
    requires a & 1 == 0 && b & 1 == 0
    ensures BitStep(Xor(a, b)) == Xor(BitStep(a), BitStep(b))
  {
  }

  lemma OddOrEven(a: bv32)
    ensures a & 1 == 0 || a & 1 == 1
  {
  }

  lemma XorCommutes(a: bv32, b: bv32)
    ensures Xor(a, b) == Xor(b, a)
  {
  }

  lemma BitLinear(a: bv32, b: bv32)
    ensures BitStep(Xor(a, b)) == Xor(BitStep(a), BitStep(b))
  {
    hide BitStep, Xor;
    OddOrEven(a);
    OddOrEven(b);
    if a & 1 == 0 {
      if b & 1 == 0 {
        LinearBothEven(a, b);
      } else {
        LinearOneOdd(a, b);
      }
    } else if b & 1 == 0 {
      LinearOneOdd(b, a);
      XorCommutes(a, b);
      XorCommutes(BitStep(a), BitStep(b));
    } else {
      LinearBothOdd(a, b);
    }
  }

  lemma NibbleLinear(a: bv32, b: bv32)
    ensures NibbleStep(Xor(a, b)) == Xor(NibbleStep(a), NibbleStep(b))
  {
    hide BitStep, Xor;
    BitLinear(a, b);
    BitLinear(BitStep(a), BitStep(b));
    BitLinear(BitStep(BitStep(a)), BitStep(BitStep(b)));
    BitLinear(BitStep(BitStep(BitStep(a))), BitStep(BitStep(BitStep(b))));
  }

  lemma ByteLinear(a: bv32, b: bv32)
    ensures ByteStep(Xor(a, b)) == Xor(ByteStep(a), ByteStep(b))
  {
    hide NibbleStep, Xor;
    NibbleLinear(a, b);
    NibbleLinear(NibbleStep(a), NibbleStep(b));
  }

  lemma ShiftNibble(x: bv32)
    requires x & 0xF == 0
    ensures NibbleStep(x) == x >> 4
  {
  }

  function Down(x: bv32): bv32 {
    x >> 8
  }

  function Up(x: bv32): bv32 {
    x << 8
  }

  /** Bits above the lowest byte only move down. */
  lemma ShiftByte(x: bv32)
    requires Low(x) == 0
    ensures ByteStep(x) == Down(x)
  {
    assert x & 0xF == 0 && (x >> 4) & 0xF == 0;
    ShiftNibble(x);
    ShiftNibble(x >> 4);
    hide NibbleStep;
    assert (x >> 4) >> 4 == x >> 8;
  }

  function High(x: bv32): bv32 {
    x & 0xFFFFFF00
  }

  function Low(x: bv32): bv32 {
    x & 0xFF
  }

  lemma HighLow(x: bv32)
    ensures Xor(High(x), Low(x)) == x && Low(High(x)) == 0 && Low(x) < 256
  {
  }

  lemma HighShift(c: bv32, b: bv32)
    requires b < 256
    ensures Down(High(Xor(c, b))) == Down(c)
  {
  }

  /** One step of the table-driven loop is eight steps of the bit-serial CRC. */
  lemma TableStep(c: bv32, b: bv32)
    requires b < 256
    ensures Low(Xor(c, b)) < 256 && Xor(Down(c), Entry(Low(Xor(c, b)))) == ByteStep(Xor(c, b))
  {
    var x := Xor(c, b);
    HighLow(x);
    HighShift(c, b);
    hide ByteStep, Entry, Xor, High, Low, Down;
    ByteLinear(High(x), Low(x));
    ShiftByte(High(x));
    TableIsSerial(Low(x));
  }

  lemma BitInjective(a: bv32, b: bv32)
    ensures BitStep(a) == BitStep(b) ==> a == b
  {
  }

  lemma NibbleInjective(a: bv32, b: bv32)
    ensures NibbleStep(a) == NibbleStep(b) ==> a == b
  {
    hide BitStep;
    BitInjective(a, b);
    BitInjective(BitStep(a), BitStep(b));
    BitInjective(BitStep(BitStep(a)), BitStep(BitStep(b)));
    BitInjective(BitStep(BitStep(BitStep(a))), BitStep(BitStep(BitStep(b))));
  }

  lemma ByteInjective(a: bv32, b: bv32)
    ensures ByteStep(a) == ByteStep(b) ==> a == b
  {
    hide NibbleStep;
    NibbleInjective(a, b);
    NibbleInjective(NibbleStep(a), NibbleStep(b));
  }

  lemma XorCancels(a: bv32, b: bv32, x: bv32)
    ensures Xor(a, x) == Xor(b, x) ==> a == b
    ensures Xor(x, a) == Xor(x, b) ==> a == b
  {
  }

  lemma FlipTwice(a: bv32)
    ensures Flip(Flip(a)) == a
  {
  }

  // ---------- Crc32_ComputeBuf ----------

  method ComputeBuf(inCrc32: bv32, buf: array<Byte>, bufLen: nat) returns (r: bv32)
    requires bufLen <= buf.Length
    ensures r == Crc(inCrc32, buf[..bufLen])
  {
    hide ByteStep, Xor, Entry, Flip, Wide, Low, Down;
    var crc32 := Flip(inCrc32);
    var i := 0;
    while i < bufLen
      invariant 0 <= i <= bufLen
      invariant crc32 == Serial(Flip(inCrc32), buf[..i])
    {
      var b := Wide(buf[i]);
      ByteFits(buf[i]);
      TableStep(crc32, b);
      SerialMore(Flip(inCrc32), buf[..i], buf[i]);
      assert buf[..i + 1] == buf[..i] + [buf[i]];
      crc32 := Xor(Down(crc32), Entry(Low(Xor(crc32, b))));
      i := i + 1;
    }
    r := Flip(crc32);
  }

  lemma ByteFits(b: Byte)
    ensures Wide(b) < 256
  {
  }

  lemma {:induction false} SerialConcat(c: bv32, a: seq<Byte>, b: seq<Byte>)
    ensures Serial(c, a + b) == Serial(Serial(c, a), b)
    decreases a
  {
    hide ByteStep, Xor, Wide;
    if a == [] {
      assert a + b == b;
    } else {
      assert (a + b)[1..] == a[1..] + b;
      SerialConcat(ByteStep(Xor(c, Wide(a[0]))), a[1..], b);
    }
  }

  lemma SerialMore(c: bv32, a: seq<Byte>, x: Byte)
    ensures Serial(c, a + [x]) == ByteStep(Xor(Serial(c, a), Wide(x)))
  {
    hide ByteStep, Xor, Wide;
    SerialConcat(c, a, [x]);
    SerialOne(Serial(c, a), x);
  }

  lemma SerialOne(d: bv32, x: Byte)
    ensures Serial(d, [x]) == ByteStep(Xor(d, Wide(x)))
  {
    hide ByteStep, Xor, Wide;
    assert [x][1..] == [];
  }

  /** A buffer can be processed in pieces. */
  lemma Composes(crc: bv32, a: seq<Byte>, b: seq<Byte>)
    ensures Crc(Crc(crc, a), b) == Crc(crc, a + b)
  {
    hide Serial, Flip;
    SerialConcat(Flip(crc), a, b);
    FlipTwice(Serial(Flip(crc), a));
  }

  lemma {:induction false} SerialInjective(c: bv32, d: bv32, bytes: seq<Byte>)
    ensures Serial(c, bytes) == Serial(d, bytes) ==> c == d
    decreases bytes
  {
    hide ByteStep, Xor, Wide;
    if bytes != [] {
      var x := Wide(bytes[0]);
      SerialInjective(ByteStep(Xor(c, x)), ByteStep(Xor(d, x)), bytes[1..]);
      ByteInjective(Xor(c, x), Xor(d, x));
      XorCancels(c, d, x);
    }
  }

  // ---------- error detection ----------

  /** Up to four bytes as one word, the first byte lowest. */
  function Word(u: seq<Byte>): bv32
    requires |u| <= 4
  {
    if u == [] then 0 else Joined(u[0], Word(u[1..]))
  }

  function Steps(c: bv32, n: nat): bv32
    decreases n
  {
    if n == 0 then c else Steps(ByteStep(c), n - 1)
  }

  lemma UpDown(w: bv32)
    requires w < 0x1000000
    ensures Low(Up(w)) == 0 && Down(Up(w)) == w
  {
  }

  /** Bytes that come later can be put into the running value beforehand. */
  lemma Push(x: bv32, w: bv32)
    requires w < 0x1000000
    ensures Xor(ByteStep(x), w) == ByteStep(Xor(x, Up(w)))
  {
    UpDown(w);
    hide ByteStep, Xor, Up, Down, Low;
    ByteLinear(x, Up(w));
    ShiftByte(Up(w));
  }

  lemma {:induction false} WordFits(u: seq<Byte>)
    requires |u| <= 3
    ensures |u| == 0 ==> Word(u) == 0
    ensures |u| <= 1 ==> Word(u) < 0x100
    ensures |u| <= 2 ==> Word(u) < 0x10000
    ensures Word(u) < 0x1000000
  {
    if |u| > 0 {
      WordFits(u[1..]);
      JoinFits(u[0], Word(u[1..]));
    }
  }

  lemma JoinFits(b: Byte, w: bv32)
    ensures w == 0 ==> Joined(b, w) < 0x100
    ensures w < 0x100 ==> Joined(b, w) < 0x10000
    ensures w < 0x10000 ==> Joined(b, w) < 0x1000000
  {
  }

  /** w with one byte below it. */
  function Joined(b: Byte, w: bv32): bv32 {
    Wide(b) | Up(w)
  }

  lemma XorAssociates(a: bv32, b: bv32, c: bv32)
    ensures Xor(Xor(a, b), c) == Xor(a, Xor(b, c))
  {
  }

  lemma JoinIsXor(b: Byte, w: bv32)
    ensures Joined(b, w) == Xor(Wide(b), Up(w))
  {
  }

  /** Four bytes, or fewer, in a row act on the running value as one word. */
  lemma {:induction false} AsWord(c: bv32, u: seq<Byte>)
    requires |u| <= 4
    ensures Serial(c, u) == Steps(Xor(c, Word(u)), |u|)
    decreases u
  {
    if u == [] {
      XorZero(c);
    } else {
      var w := Word(u[1..]);
      WordFits(u[1..]);
      Push(Xor(c, Wide(u[0])), w);
      JoinIsXor(u[0], w);
      XorAssociates(c, Wide(u[0]), Up(w));
      hide ByteStep, Xor, Wide, Up, Joined;
      AsWord(ByteStep(Xor(c, Wide(u[0]))), u[1..]);
    }
  }

  lemma XorZero(c: bv32)
    ensures Xor(c, 0) == c
  {
  }

  lemma {:induction false} StepsInjective(c: bv32, d: bv32, n: nat)
    ensures Steps(c, n) == Steps(d, n) ==> c == d
    decreases n
  {
    hide ByteStep;
    if n > 0 {
      StepsInjective(ByteStep(c), ByteStep(d), n - 1);
      ByteInjective(c, d);
    }
  }

  lemma JoinInjective(b: Byte, w: bv32, d: Byte, v: bv32)
    requires w < 0x1000000 && v < 0x1000000
    ensures Joined(b, w) == Joined(d, v) ==> b == d && w == v
  {
  }

  lemma {:induction false} WordInjective(u: seq<Byte>, v: seq<Byte>)
    requires |u| == |v| <= 4
    ensures Word(u) == Word(v) ==> u == v
    decreases u
  {
    if u != [] {
      WordInjective(u[1..], v[1..]);
      WordFits(u[1..]);
      WordFits(v[1..]);
      JoinInjective(u[0], Word(u[1..]), v[0], Word(v[1..]));
      hide Wide;
      assert u == [u[0]] + u[1..] && v == [v[0]] + v[1..];
    }
  }

  /** Any change that is confined to four bytes in a row, so also any change of a single byte,
      changes the result. */
  lemma BurstDetected(crc: bv32, a: seq<Byte>, u: seq<Byte>, v: seq<Byte>, b: seq<Byte>)
    requires |u| == |v| <= 4 && u != v
    ensures Crc(crc, a + u + b) != Crc(crc, a + v + b)
  {
    hide Serial, Flip, Steps, Word, Xor;
    var c := Serial(Flip(crc), a);
    SerialConcat(Flip(crc), a + u, b);
    SerialConcat(Flip(crc), a, u);
    SerialConcat(Flip(crc), a + v, b);
    SerialConcat(Flip(crc), a, v);
    SerialInjective(Serial(c, u), Serial(c, v), b);
    AsWord(c, u);
    AsWord(c, v);
    StepsInjective(Xor(c, Word(u)), Xor(c, Word(v)), |u|);
    XorCancels(Word(u), Word(v), c);
    WordInjective(u, v);
    FlipTwice(Serial(Serial(c, u), b));
    FlipTwice(Serial(Serial(c, v), b));
  }
  // ---------- the CRC behind its buffer ----------

  /** The four bytes of a word, the lowest first. */
  function Bytes(w: bv32): (u: seq<Byte>)
    ensures |u| == 4
  {
    [Lowest(w), Lowest(Down(w)), Lowest(Down(Down(w))), Lowest(Down(Down(Down(w))))]
  }

  function Lowest(w: bv32): Byte {
    (w & 0xFF) as Byte
  }

  lemma JoinLowest(w: bv32)
    ensures Joined(Lowest(w), Down(w)) == w
  {
  }

  lemma FourDown(w: bv32)
    ensures Down(Down(Down(Down(w)))) == 0
  {
  }

  lemma WordOfBytes(w: bv32)
    ensures Word(Bytes(w)) == w
  {
    hide Joined, Lowest, Down;
    var u := Bytes(w);
    FourDown(w);
    JoinLowest(w);
    JoinLowest(Down(w));
    JoinLowest(Down(Down(w)));
    JoinLowest(Down(Down(Down(w))));
    WordOfFour(u[0], u[1], u[2], u[3]);
    assert u == [u[0], u[1], u[2], u[3]];
  }

  lemma WordOfFour(a: Byte, b: Byte, c: Byte, d: Byte)
    ensures Word([a, b, c, d]) == Joined(a, Joined(b, Joined(c, Joined(d, 0))))
  {
    hide Joined;
    assert [d][1..] == [] && [c, d][1..] == [d] && [b, c, d][1..] == [c, d] && [a, b, c, d][1..] == [b, c, d];
    assert Word([d]) == Joined(d, 0);
    assert Word([c, d]) == Joined(c, Word([d]));
    assert Word([b, c, d]) == Joined(b, Word([c, d]));
  }

  lemma NibblesOfOnes()
    ensures NibbleStep(0xFFFFFFFF) == 0xB2420DE3 && NibbleStep(0xB2420DE3) == 0x2DFD1072
    ensures NibbleStep(0x2DFD1072) == 0x39B1F1CF && NibbleStep(0x39B1F1CF) == 0xBE26ED00
    ensures NibbleStep(0xBE26ED00) == 0x0BE26ED0 && NibbleStep(0x0BE26ED0) == 0x00BE26ED
    ensures NibbleStep(0x00BE26ED) == 0x86D830BA && NibbleStep(0x86D830BA) == 0xDEBB20E3
  {
  }

  lemma FourSteps(c: bv32)
    ensures Steps(c, 4) == ByteStep(ByteStep(ByteStep(ByteStep(c))))
  {
    hide ByteStep;
  }

  lemma XorFlip(a: bv32)
    ensures Xor(a, Flip(a)) == 0xFFFFFFFF
  {
  }

  lemma StepsOfOnes()
    ensures Flip(Steps(0xFFFFFFFF, 4)) == 0x2144DF1C
  {
    hide NibbleStep;
    NibblesOfOnes();
    FourSteps(0xFFFFFFFF);
  }

  /** A buffer with its own CRC behind it, lowest byte first, has the CRC 0x2144DF1C, whatever the buffer and the
      CRC it started from. */
  lemma Residue(crc: bv32, buf: seq<Byte>)
    ensures Crc(crc, buf + Bytes(Crc(crc, buf))) == 0x2144DF1C
  {
    hide Serial, Flip, Steps, Word, Xor, Bytes;
    var c := Serial(Flip(crc), buf);
    SerialConcat(Flip(crc), buf, Bytes(Flip(c)));
    AsWord(c, Bytes(Flip(c)));
    WordOfBytes(Flip(c));
    XorFlip(c);
    StepsOfOnes();
  }
}
