/** The flow hash that chooses a packet's worker. */
module Toeplitz {

  // ---- specification

  /** Bit k of a byte, the most significant one first. */
  predicate Bit(b: bv8, k: nat)
    requires k < 8
  {
    b & (1 << (7 - k)) != 0
  }

  function Join(a: bv8, b: bv8, c: bv8, d: bv8): bv32 {
    (a as bv32 << 24) | (b as bv32 << 16) | (c as bv32 << 8) | d as bv32
  }

  /** Four consecutive key bytes from position i on, wrapping around, as one big-endian word. */
  function Word(key: seq<bv8>, i: nat): bv32
    requires key != []
  {
    Join(key[i % |key|], key[(i + 1) % |key|], key[(i + 2) % |key|], key[(i + 3) % |key|])
  }

  /** The XOR of the key words at the positions of the bits that are set among the first n. */
  function HashBits(key: seq<bv8>, data: seq<bv8>, n: nat): bv32
    requires key != [] && n <= 8 * |data|
  {
    if n == 0 then 0
    else Sum(HashBits(key, data, n - 1), Selected(Bit(data[(n - 1) / 8], (n - 1) % 8), Word(key, n - 1)))
  }

  function Selected(b: bool, w: bv32): bv32 {
    if b then w else 0
  }

  function Sum(a: bv32, b: bv32): bv32 {
    a ^ b
  }

  function Hash(key: seq<bv8>, data: seq<bv8>): bv32
    requires key != []
  {
    HashBits(key, data, 8 * |data|)
  }

  // ---- the loop

  lemma HashStep(key: seq<bv8>, data: seq<bv8>, i: nat)
    requires key != [] && i < 8 * |data|
    ensures HashBits(key, data, i + 1)
         == if data[i / 8] & (1 << (7 - i % 8)) != 0
            then HashBits(key, data, i)
                 ^ ((key[i % |key|] as bv32 << 24) | (key[(i + 1) % |key|] as bv32 << 16)
                    | (key[(i + 2) % |key|] as bv32 << 8) | key[(i + 3) % |key|] as bv32)
            else HashBits(key, data, i)
  {
    hide HashBits, Sum, Selected, Bit, Word;
    HashBitsStep(key, data, i + 1);
    var w := Word(key, i);
    var h := HashBits(key, data, i);
    SumZero(h);
    BitIs(data[i / 8], i % 8);
    SelectedIs(Bit(data[i / 8], i % 8), w);
    SumIsXor(h, w);
    WordIs(key, i);
  }

  lemma BitIs(b: bv8, k: nat)
    requires k < 8
    ensures Bit(b, k) <==> b & (1 << (7 - k)) != 0
  {
  }

  lemma WordIs(key: seq<bv8>, i: nat)
    requires key != []
    ensures Word(key, i)
         == (key[i % |key|] as bv32 << 24) | (key[(i + 1) % |key|] as bv32 << 16)
            | (key[(i + 2) % |key|] as bv32 << 8) | key[(i + 3) % |key|] as bv32
  {
  }

  lemma SelectedIs(b: bool, w: bv32)
    ensures Selected(b, w) == if b then w else 0
  {
  }

  lemma SumIsXor(a: bv32, b: bv32)
    ensures Sum(a, b) == a ^ b
  {
  }

  lemma HashNone(key: seq<bv8>, data: seq<bv8>)
    requires key != []
    ensures HashBits(key, data, 0) == 0
  {
  }

  /** `toeplitz_hash` */
  method ToeplitzHash(key: array<bv8>, keyLen: nat, data: array<bv8>, dataLen: nat) returns (result: bv32)
    requires 0 < keyLen <= key.Length && dataLen <= data.Length
    ensures result == Hash(key[..keyLen], data[..dataLen])
  {
    hide HashBits;
    HashNone(key[..keyLen], data[..dataLen]);
    result := 0;
    var bits := dataLen * 8;
    for i := 0 to bits
      invariant result == HashBits(key[..keyLen], data[..dataLen], i)
    {
      HashStep(key[..keyLen], data[..dataLen], i);
      if data[i / 8] & (1 << (7 - i % 8)) != 0 {
        result := result
        ^ ((key[i % keyLen] as bv32 << 24) | (key[(i + 1) % keyLen] as bv32 << 16)
           | (key[(i + 2) % keyLen] as bv32 << 8) | key[(i + 3) % keyLen] as bv32);
      }
    }
  }

  // ---- linearity

  function Xor(a: seq<bv8>, b: seq<bv8>): (r: seq<bv8>)
    requires |a| == |b|
    ensures |r| == |a|
  {
    seq(|a|, i requires 0 <= i < |a| && |a| == |b| => a[i] ^ b[i])
  }

  lemma MaskXor(a: bv8, b: bv8, m: bv8)
    requires m in {1, 2, 4, 8, 16, 32, 64, 128}
    ensures (a ^ b) & m != 0 <==> ((a & m != 0) != (b & m != 0))
  {
  }

  lemma MaskIsOneBit(k: nat)
    requires k < 8
    ensures 1 << (7 - k) in {1 as bv8, 2, 4, 8, 16, 32, 64, 128}
  {
  }

  lemma BitXor(a: bv8, b: bv8, k: nat)
    requires k < 8
    ensures Bit(a ^ b, k) <==> (Bit(a, k) != Bit(b, k))
  {
    MaskIsOneBit(k);
    MaskXor(a, b, 1 << (7 - k));
  }

  lemma SumCommutes(a: bv32, b: bv32)
    ensures Sum(a, b) == Sum(b, a)
  {
  }

  lemma SumAssociates(a: bv32, b: bv32, c: bv32)
    ensures Sum(Sum(a, b), c) == Sum(a, Sum(b, c))
  {
  }

  lemma SumZero(a: bv32)
    ensures Sum(a, 0) == a && Sum(0, a) == a && Sum(a, a) == 0
  {
  }

  lemma Shuffle(x: bv32, y: bv32, u: bv32, v: bv32)
    ensures Sum(Sum(x, y), Sum(u, v)) == Sum(Sum(x, u), Sum(y, v))
  {
    hide Sum;
    SumAssociates(x, y, Sum(u, v));
    SumAssociates(y, u, v);
    SumCommutes(y, u);
    SumAssociates(u, y, v);
    SumAssociates(x, u, Sum(y, v));
  }

  lemma SelectedSum(a: bool, b: bool, w: bv32)
    ensures Selected(a != b, w) == Sum(Selected(a, w), Selected(b, w))
  {
    hide Sum;
    SumZero(w);
    SumZero(0);
  }

  lemma HashBitsStep(key: seq<bv8>, data: seq<bv8>, n: nat)
    requires key != [] && 0 < n <= 8 * |data|
    ensures HashBits(key, data, n)
         == Sum(HashBits(key, data, n - 1), Selected(Bit(data[(n - 1) / 8], (n - 1) % 8), Word(key, n - 1)))
  {
    hide Bit, Word, Selected, Sum;
  }

  lemma {:induction false} HashBitsXor(key: seq<bv8>, a: seq<bv8>, b: seq<bv8>, n: nat)
    requires key != [] && |a| == |b| && n <= 8 * |a|
    ensures HashBits(key, Xor(a, b), n) == Sum(HashBits(key, a, n), HashBits(key, b, n))
  {
    hide Bit, Word, Selected, Sum, HashBits;
    if n == 0 {
      HashNone(key, a);
      HashNone(key, b);
      HashNone(key, Xor(a, b));
      SumZero(0);
    } else {
      HashBitsXor(key, a, b, n - 1);
      HashBitsStep(key, a, n);
      HashBitsStep(key, b, n);
      HashBitsStep(key, Xor(a, b), n);
      var byte, k, w := (n - 1) / 8, (n - 1) % 8, Word(key, n - 1);
      var p, q := Bit(a[byte], k), Bit(b[byte], k);
      BitXor(a[byte], b[byte], k);
      SelectedSum(p, q, w);
      Shuffle(HashBits(key, a, n - 1), HashBits(key, b, n - 1), Selected(p, w), Selected(q, w));
    }
  }

  /** The hash is linear: data that differ in some bits have hashes that differ by what those bits hash to. */
  lemma Linear(key: seq<bv8>, a: seq<bv8>, b: seq<bv8>)
    requires key != [] && |a| == |b|
    ensures Hash(key, Xor(a, b)) == Hash(key, a) ^ Hash(key, b)
  {
    HashBitsXor(key, a, b, 8 * |a|);
  }

  // ---- the built-in key

  const KEY: seq<bv8> := [0x6d, 0x5a, 0x56, 0xfa, 0x6d, 0x5a, 0x56, 0xfa]

  /** The first key word rotated left by c bytes. */
  function Rotation(c: nat): bv32
    requires c < 4
  {
    var w: bv32 := 0x6d5a56fa;
    if c == 0 then w else (w << (8 * c)) | (w >> (32 - 8 * c))
  }

  /** The parity of the bits whose position is c modulo 4, among the first n. */
  predicate Parity(data: seq<bv8>, c: nat, n: nat)
    requires n <= 8 * |data|
  {
    n > 0 && (Parity(data, c, n - 1) != ((n - 1) % 4 == c && Bit(data[(n - 1) / 8], (n - 1) % 8)))
  }

  lemma JoinIsRotation(c: nat)
    requires c < 4
    ensures c == 0 ==> Join(0x6d, 0x5a, 0x56, 0xfa) == Rotation(0)
    ensures c == 1 ==> Join(0x5a, 0x56, 0xfa, 0x6d) == Rotation(1)
    ensures c == 2 ==> Join(0x56, 0xfa, 0x6d, 0x5a) == Rotation(2)
    ensures c == 3 ==> Join(0xfa, 0x6d, 0x5a, 0x56) == Rotation(3)
  {
  }

  lemma RotationOf(i: nat)
    requires i < 4
    ensures Join(KEY[i], KEY[(i + 1) % 4], KEY[(i + 2) % 4], KEY[(i + 3) % 4]) == Rotation(i)
  {
    hide Join, Rotation;
    JoinIsRotation(i);
  }

  lemma KeyRepeats(i: nat)
    ensures KEY[i % 8] == KEY[i % 4]
  {
  }

  lemma ModuloFour(i: nat, k: nat)
    ensures (i + k) % 4 == (i % 4 + k) % 4
  {
  }

  lemma WordIsRotation(i: nat)
    ensures Word(KEY, i) == Rotation(i % 4)
  {
    hide Join, Rotation;
    KeyRepeats(i);
    KeyRepeats(i + 1);
    KeyRepeats(i + 2);
    KeyRepeats(i + 3);
    RotationOf(i % 4);
    ModuloFour(i, 1);
    ModuloFour(i, 2);
    ModuloFour(i, 3);
  }

  /** The XOR of the selected rotations. */
  function Mix(p: bool, q: bool, r: bool, s: bool): bv32 {
    Sum(Sum(Selected(p, Rotation(0)), Selected(q, Rotation(1))),
        Sum(Selected(r, Rotation(2)), Selected(s, Rotation(3))))
  }

  lemma MixSum(p: bool, q: bool, r: bool, s: bool, p': bool, q': bool, r': bool, s': bool)
    ensures Sum(Mix(p, q, r, s), Mix(p', q', r', s')) == Mix(p != p', q != q', r != r', s != s')
  {
    hide Sum, Selected, Rotation;
    var a, b, c, d := Rotation(0), Rotation(1), Rotation(2), Rotation(3);
    SelectedSum(p, p', a);
    SelectedSum(q, q', b);
    SelectedSum(r, r', c);
    SelectedSum(s, s', d);
    Shuffle(Sum(Selected(p, a), Selected(q, b)), Sum(Selected(r, c), Selected(s, d)),
            Sum(Selected(p', a), Selected(q', b)), Sum(Selected(r', c), Selected(s', d)));
    Shuffle(Selected(p, a), Selected(q, b), Selected(p', a), Selected(q', b));
    Shuffle(Selected(r, c), Selected(s, d), Selected(r', c), Selected(s', d));
  }

  lemma MixOne(c: nat, b: bool)
    requires c < 4
    ensures Mix(c == 0 && b, c == 1 && b, c == 2 && b, c == 3 && b) == Selected(b, Rotation(c))
  {
    hide Sum, Rotation;
    SumZero(0);
    SumZero(Rotation(c));
  }

  /** With the built-in key only four parities of the data matter; so the hash has at most 16 values. */
  lemma {:induction false} ParitiesDecide(data: seq<bv8>, n: nat)
    requires n <= 8 * |data|
    ensures HashBits(KEY, data, n)
         == Mix(Parity(data, 0, n), Parity(data, 1, n), Parity(data, 2, n), Parity(data, 3, n))
  {
    hide Bit, Word, Selected, Mix, Rotation, Sum;
    if n == 0 {
      NoParity();
    } else {
      ParitiesDecide(data, n - 1);
      WordIsRotation(n - 1);
      var c, b := (n - 1) % 4, Bit(data[(n - 1) / 8], (n - 1) % 8);
      MixOne(c, b);
      MixSum(Parity(data, 0, n - 1), Parity(data, 1, n - 1), Parity(data, 2, n - 1), Parity(data, 3, n - 1),
             c == 0 && b, c == 1 && b, c == 2 && b, c == 3 && b);
    }
  }

  lemma NoParity()
    ensures Mix(false, false, false, false) == 0
  {
  }

  // ---- swapping the addresses

  lemma BitPosition(before: nat, i: nat)
    ensures (8 * before + i) % 4 == i % 4 && (8 * before + i) / 8 == before + i / 8 && (8 * before + i) % 8 == i % 8
  {
    var byte, bit := i / 8, i % 8;
    Division(before + byte, bit);
    assert 8 * before + i == 8 * (before + byte) + bit;
    Quarters(2 * before, i);
  }

  lemma Division(q: nat, r: nat)
    requires r < 8
    ensures (8 * q + r) / 8 == q && (8 * q + r) % 8 == r
  {
  }

  lemma Quarters(q: nat, i: nat)
    ensures (4 * q + i) % 4 == i % 4
  {
  }

  /** A bit of the second part selects the same word wherever that part starts. */
  lemma SameSelection(a: seq<bv8>, b: seq<bv8>, k: nat)
    requires k < 8 * |b|
    ensures var i := 8 * |a| + k;
            i / 8 < |a + b| && Bit((a + b)[i / 8], i % 8) == Bit(b[k / 8], k % 8) && Word(KEY, i) == Word(KEY, k)
  {
    hide Bit, Word, Rotation;
    WordIsRotation(8 * |a| + k);
    WordIsRotation(k);
    BitPosition(|a|, k);
  }

  lemma {:induction false} HashBitsAppend(a: seq<bv8>, b: seq<bv8>, n: nat)
    requires n <= 8 * |b|
    ensures HashBits(KEY, a + b, 8 * |a| + n) == Sum(HashBits(KEY, a + b, 8 * |a|), HashBits(KEY, b, n))
  {
    hide Bit, Word, Selected, Sum, Rotation;
    if n == 0 {
      SumZero(HashBits(KEY, a + b, 8 * |a|));
    } else {
      HashBitsAppend(a, b, n - 1);
      SameSelection(a, b, n - 1);
      SumAssociates(HashBits(KEY, a + b, 8 * |a|), HashBits(KEY, b, n - 1),
                    Selected(Bit(b[(n - 1) / 8], (n - 1) % 8), Word(KEY, n - 1)));
    }
  }

  lemma {:induction false} HashBitsPrefix(a: seq<bv8>, b: seq<bv8>, n: nat)
    requires n <= 8 * |a|
    ensures HashBits(KEY, a + b, n) == HashBits(KEY, a, n)
  {
    hide Bit, Word, Selected, Sum;
    if n > 0 {
      HashBitsPrefix(a, b, n - 1);
    }
  }

  /** Bytes are whole multiples of the key's period, so the hash of two parts is the XOR of their hashes. */
  lemma HashAppend(a: seq<bv8>, b: seq<bv8>)
    ensures Hash(KEY, a + b) == Sum(Hash(KEY, a), Hash(KEY, b))
  {
    hide HashBits, Sum;
    HashBitsPrefix(a, b, 8 * |a|);
    HashBitsAppend(a, b, 8 * |b|);
    assert 8 * |a + b| == 8 * |a| + 8 * |b|;
  }

  lemma OrderDoesNotMatter(a: seq<bv8>, b: seq<bv8>)
    ensures Hash(KEY, a + b) == Hash(KEY, b + a)
  {
    hide Hash, Sum;
    HashAppend(a, b);
    HashAppend(b, a);
    SumCommutes(Hash(KEY, a), Hash(KEY, b));
  }

  // ---- packets

  const MAC_SIZE := 6
  const HEADER_SIZE := 14

  /** The hash of a packet of the given length whose buffer starts with these bytes. */
  function PacketHash(bytes: seq<bv8>, length: nat): bv32
    requires length >= HEADER_SIZE ==> |bytes| >= HEADER_SIZE
  {
    if length < HEADER_SIZE then 0 else Hash(KEY, bytes[6..12] + bytes[..6])
  }

  /** `compute_packet_hash` */
  method ComputePacketHash(packet: array<bv8>, length: nat) returns (hash: bv32)
    requires length >= HEADER_SIZE ==> packet.Length >= HEADER_SIZE
    ensures hash == PacketHash(packet[..], length)
  {
    hide Hash;
    if length < HEADER_SIZE {
      return 0;
    }
    var data := new bv8[12];
    forall i | 0 <= i < MAC_SIZE {
      data[i] := packet[6 + i];
    }
    forall i | 0 <= i < MAC_SIZE {
      data[6 + i] := packet[i];
    }
    assert data[..12] == packet[..][6..12] + packet[..][..6];
    var key := new bv8[8](i requires 0 <= i < 8 => KEY[i]);
    assert key[..8] == KEY;
    hash := ToeplitzHash(key, 8, data, 12);
  }

  /** The worker a packet goes to. */
  function Worker(bytes: seq<bv8>, length: nat, workers: nat): (w: nat)
    requires workers > 0 && (length >= HEADER_SIZE ==> |bytes| >= HEADER_SIZE)
    ensures w < workers
  {
    PacketHash(bytes, length) as nat % workers
  }

  /** The hash is decided by four parities of the addresses: an XOR of byte rotations of the key's first word. */
  lemma PacketHashIsMix(bytes: seq<bv8>, length: nat)
    requires length >= HEADER_SIZE && |bytes| >= HEADER_SIZE
    ensures var data := bytes[6..12] + bytes[..6];
            PacketHash(bytes, length)
            == Mix(Parity(data, 0, 96), Parity(data, 1, 96), Parity(data, 2, 96), Parity(data, 3, 96))
  {
    hide HashBits, Mix;
    ParitiesDecide(bytes[6..12] + bytes[..6], 96);
  }

  /** Replies go to the worker of the packets they answer. */
  lemma RepliesShareWorker(request: seq<bv8>, reply: seq<bv8>, n: nat, m: nat, workers: nat)
    requires workers > 0 && n >= HEADER_SIZE && m >= HEADER_SIZE
    requires |request| >= HEADER_SIZE && |reply| >= HEADER_SIZE
    requires reply[..6] == request[6..12] && reply[6..12] == request[..6]
    ensures PacketHash(request, n) == PacketHash(reply, m) && Worker(request, n, workers) == Worker(reply, m, workers)
  {
    hide Hash;
    OrderDoesNotMatter(request[6..12], request[..6]);
  }

  // ---- single bits

  const BITS: seq<bv8> := [128, 64, 32, 16, 8, 4, 2, 1]

  /** Bit k of byte j is the only one that is set. */
  predicate OnlyBit(data: seq<bv8>, j: nat, k: nat) {
    j < |data| && k < 8 && data[j] == BITS[k] && forall i :: 0 <= i < |data| && i != j ==> data[i] == 0
  }

  lemma BitOf(k: nat, m: nat)
    requires k < 8 && m < 8
    ensures (Bit(BITS[k], m) <==> m == k) && !Bit(0, m)
  {
    assert k == 0 || k == 1 || k == 2 || k == 3 || k == 4 || k == 5 || k == 6 || k == 7;
    assert m == 0 || m == 1 || m == 2 || m == 3 || m == 4 || m == 5 || m == 6 || m == 7;
  }

  lemma {:induction false} OneBitSoFar(key: seq<bv8>, data: seq<bv8>, j: nat, k: nat, n: nat)
    requires key != [] && OnlyBit(data, j, k) && n <= 8 * |data|
    ensures HashBits(key, data, n) == if n > 8 * j + k then Word(key, 8 * j + k) else 0
    decreases n
  {
    hide Bit, Word, Selected, Sum, HashBits;
    if n == 0 {
      HashNone(key, data);
    } else {
      OneBitSoFar(key, data, j, k, n - 1);
      HashBitsStep(key, data, n);
      var byte, m := (n - 1) / 8, (n - 1) % 8;
      BitOf(k, m);
      SelectedIs(Bit(data[byte], m), Word(key, n - 1));
      SumZero(HashBits(key, data, n - 1));
      SumZero(Word(key, n - 1));
      assert n - 1 == 8 * byte + m;
    }
  }

  lemma JoinBytes(a: bv8, b: bv8, c: bv8, d: bv8)
    ensures var h := Join(a, b, c, d);
            h >> 24 == a as bv32 && (h >> 16) & 0xFF == b as bv32
            && (h >> 8) & 0xFF == c as bv32 && h & 0xFF == d as bv32
  {
  }

  /** A bit contributes the four key bytes from its position on, counted from the most significant bit of the data. */
  lemma OneBit(key: seq<bv8>, data: seq<bv8>, j: nat, k: nat)
    requires key != [] && OnlyBit(data, j, k)
    ensures var h, i, n := Hash(key, data), 8 * j + k, |key|;
            h >> 24 == key[i % n] as bv32 && (h >> 16) & 0xFF == key[(i + 1) % n] as bv32
            && (h >> 8) & 0xFF == key[(i + 2) % n] as bv32 && h & 0xFF == key[(i + 3) % n] as bv32
  {
    hide HashBits, Join;
    OneBitSoFar(key, data, j, k, 8 * |data|);
    var i, n := 8 * j + k, |key|;
    JoinBytes(key[i % n], key[(i + 1) % n], key[(i + 2) % n], key[(i + 3) % n]);
  }

  const WORDS: seq<bv32> := [0x6d5a56fa, 0x5a56fa6d, 0x56fa6d5a, 0xfa6d5a56]

  /** In a packet, a single bit of either address selects one of four words, and so the worker. */
  lemma OneBitOfPacket(bytes: seq<bv8>, length: nat, j: nat, k: nat)
    requires length >= 14 && |bytes| >= 14 && OnlyBit(bytes[..12], j, k)
    ensures PacketHash(bytes, length) == WORDS[k % 4]
    ensures forall n: nat :: n > 0 ==> Worker(bytes, length, n) == WORDS[k % 4] as nat % n
  {
    hide HashBits, Rotation, Word;
    var at := if j < 6 then j + 6 else j - 6;
    SwapAddresses(bytes, j, k);
    OneBitSoFar(KEY, bytes[6..12] + bytes[..6], at, k, 96);
    WordIsRotation(8 * at + k);
    BitPosition(at, k);
    RotationIs(k % 4);
  }

  lemma SwapAddresses(bytes: seq<bv8>, j: nat, k: nat)
    requires |bytes| >= 14 && OnlyBit(bytes[..12], j, k)
    ensures OnlyBit(bytes[6..12] + bytes[..6], if j < 6 then j + 6 else j - 6, k)
  {
    var data := bytes[6..12] + bytes[..6];
    assert forall i :: 0 <= i < 12 ==> data[i] == bytes[..12][if i < 6 then i + 6 else i - 6];
  }

  lemma RotationIs(c: nat)
    requires c < 4
    ensures Rotation(c) == WORDS[c]
  {
    assert c == 0 || c == 1 || c == 2 || c == 3;
  }

  /** Packets too short for a header hash to 0. */
  lemma ShortPackets(bytes: seq<bv8>, length: nat)
    requires length < 14
    ensures PacketHash(bytes, length) == 0 && forall n: nat :: n > 0 ==> Worker(bytes, length, n) == 0
  {
  }
}
