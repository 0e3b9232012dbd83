/** src/waveformProcessing/packet.cpp: unpacking integer samples from bytes. */
module Packets {
  import opened Results

  newtype Byte = x: int | 0 <= x < 256

  /** The byte order of the machine the service runs on. */
  datatype Endian = Little | Big

  datatype IntegerType = Int32 | Int64 {
    function Size(): nat {
      if Int32? then 4 else 8
    }
  }

  // ----------------------------------------------------------------- integers

  /** 256 to the power n: how many values n bytes can take. */
  function Values(n: nat): (v: nat)
    ensures v >= 1
    ensures n > 0 ==> v % 2 == 0
  {
    if n == 0 then 1 else 256 * Values(n - 1)
  }

  function LittleEndian(bytes: seq<Byte>): nat {
    if bytes == [] then 0 else bytes[0] as nat + 256 * LittleEndian(bytes[1..])
  }

  function BigEndian(bytes: seq<Byte>): nat {
    if bytes == [] then 0 else 256 * BigEndian(bytes[..|bytes| - 1]) + bytes[|bytes| - 1] as nat
  }

  /** The signed integer a machine word of n bytes holds. */
  function TwosComplement(word: nat, n: nat): int {
    if word < Values(n) / 2 then word else word - Values(n)
  }

  /** The integer the host reads from a word's bytes in memory. */
  function ReadByHost(host: Endian, bytes: seq<Byte>): int {
    TwosComplement(if host == Little then LittleEndian(bytes) else BigEndian(bytes), |bytes|)
  }

  /** The integer a block of the packet's data means. */
  function Sample(block: seq<Byte>): int {
    TwosComplement(LittleEndian(block), |block|)
  }

  function Reversed(bytes: seq<Byte>): seq<Byte> {
    seq(|bytes|, i requires 0 <= i < |bytes| => bytes[|bytes| - 1 - i])
  }

  lemma {:induction false} ReversedBytesReadBackwards(bytes: seq<Byte>)
    ensures BigEndian(Reversed(bytes)) == LittleEndian(bytes)
  {
    if bytes != [] {
      ReversedBytesReadBackwards(bytes[1..]);
      assert Reversed(bytes)[..|bytes| - 1] == Reversed(bytes[1..]);
    }
  }

  /** Reversing exactly on a big-endian host reads the same sample on every host. */
  lemma {:induction false} SampleIndependentOfHost(host: Endian, block: seq<Byte>)
    ensures ReadByHost(host, if host == Little then block else Reversed(block)) == Sample(block)
  {
    ReversedBytesReadBackwards(block);
  }

  // ------------------------------------------------------------------- unpack

  const TWO_TO_31: int := 0x8000_0000
  const TWO_TO_32: int := 0x1_0000_0000
  const TWO_TO_64: int := 0x1_0000_0000_0000_0000

  /** static_cast<T> of an unsigned 32 bit count. */
  function CastCount(t: IntegerType, nSamples: nat): int {
    if t == Int32 && nSamples >= TWO_TO_31 then nSamples - TWO_TO_32 else nSamples
  }

  /** sizeof(T) * static_cast<T>(nSamples), in unsigned 64 bit arithmetic. */
  function ExpectedSize(t: IntegerType, nSamples: nat): nat {
    (t.Size() * (CastCount(t, nSamples) % TWO_TO_64)) % TWO_TO_64
  }

  /** The count's cast only goes wrong for 2^31 or more 32 bit samples, and then no data has the
      size that is expected. */
  lemma {:induction false} ExpectedSizeIs(t: IntegerType, nSamples: nat)
    requires nSamples < TWO_TO_32
    ensures t == Int64 || nSamples < TWO_TO_31 ==> ExpectedSize(t, nSamples) == t.Size() * nSamples
    ensures t == Int32 && nSamples >= TWO_TO_31 ==> ExpectedSize(t, nSamples) >= TWO_TO_64 / 2
  {
    if t == Int32 && nSamples >= TWO_TO_31 {
      var cast := nSamples - TWO_TO_32;
      assert cast % TWO_TO_64 == cast + TWO_TO_64;
      assert (4 * (cast + TWO_TO_64)) % TWO_TO_64 == 4 * cast + TWO_TO_64;
    }
  }

  /** 2^31 samples of 4 bytes are expected to take some other size. */
  lemma {:induction false} HugeCountIsMiscast()
    ensures ExpectedSize(Int32, TWO_TO_31) != 4 * TWO_TO_31
  {
    ExpectedSizeIs(Int32, TWO_TO_31);
  }

  /** Where block i starts. */
  function Offset(i: nat, size: nat): nat {
    i * size
  }

  function Block(data: seq<Byte>, i: nat, size: nat): seq<Byte>
    requires Offset(i, size) + size <= |data|
  {
    data[Offset(i, size)..Offset(i, size) + size]
  }

  lemma {:induction false} BlockFits(i: nat, n: nat, size: nat)
    requires i < n
    ensures Offset(i, size) + size <= Offset(n, size)
  {
    assert Offset(n, size) == Offset(n - 1, size) + size;
    hide Offset;
    if i < n - 1 {
      BlockFits(i, n - 1, size);
    }
  }

  /** std::copy of one block into the union's bytes. */
  method CopyBlock(data: seq<Byte>, j: nat, cArray: array<Byte>)
    requires j + cArray.Length <= |data|
    modifies cArray
    ensures cArray[..] == data[j..j + cArray.Length]
  {
    for k := 0 to cArray.Length
      invariant forall l :: 0 <= l < k ==> cArray[l] == data[j + l]
    {
      cArray[k] := data[j + k];
    }
  }

  /** std::reverse_copy of one block into the union's bytes. */
  method ReverseCopyBlock(data: seq<Byte>, j: nat, cArray: array<Byte>)
    requires j + cArray.Length <= |data|
    modifies cArray
    ensures cArray[..] == Reversed(data[j..j + cArray.Length])
  {
    var n := cArray.Length;
    for k := 0 to n
      invariant forall l :: 0 <= l < k ==> cArray[l] == data[j + n - 1 - l]
    {
      cArray[k] := data[j + n - 1 - k];
    }
  }

  /** The bytes the host reads for one sample. */
  function Loaded(block: seq<Byte>, swapBytes: bool): seq<Byte> {
    if swapBytes then Reversed(block) else block
  }

  method ReadBlocks(host: Endian, size: nat, data: seq<Byte>, nSamples: nat, swapBytes: bool)
    returns (samples: seq<int>)
    requires |data| == Offset(nSamples, size)
    ensures |samples| == nSamples
    ensures forall i :: 0 <= i < nSamples ==>
      Offset(i, size) + size <= |data| && samples[i] == ReadByHost(host, Loaded(Block(data, i, size), swapBytes))
  {
    hide Offset, ReadByHost;
    var result := new int[nSamples];
    var cArray := new Byte[size];
    for i := 0 to nSamples
      invariant forall k :: 0 <= k < i ==>
        Offset(k, size) + size <= |data| && result[k] == ReadByHost(host, Loaded(Block(data, k, size), swapBytes))
    {
      BlockFits(i, nSamples, size);
      var j := Offset(i, size);
      if swapBytes {
        ReverseCopyBlock(data, j, cArray);
      } else {
        CopyBlock(data, j, cArray);
      }
      result[i] := ReadByHost(host, cArray[..]);
    }
    return result[..];
  }

  predicate Accepted(t: IntegerType, data: seq<Byte>, nSamples: nat) {
    data != [] && |data| == t.Size() * nSamples && (t == Int32 ==> nSamples < TWO_TO_31)
  }

  /** unpack for the integer types, before the conversion to double. */
  method Unpack(host: Endian, t: IntegerType, data: seq<Byte>, nSamples: nat, swapBytes: bool)
    returns (r: Expected<seq<int>, Exception>)
    requires nSamples < TWO_TO_32 && |data| < TWO_TO_64 / 2
    ensures r.Value? <==> Accepted(t, data, nSamples)
    ensures r.Unexpected? ==> r.error == InvalidArgument
    ensures r.Value? ==> |r.value| == nSamples
    ensures r.Value? ==> forall i :: 0 <= i < nSamples ==>
      && Offset(i, t.Size()) + t.Size() <= |data|
      && r.value[i] == ReadByHost(host, Loaded(Block(data, i, t.Size()), swapBytes))
  {
    ExpectedSizeIs(t, nSamples);
    if |data| == 0 {
      return Unexpected(InvalidArgument);
    }
    var size := t.Size();
    if |data| % size != 0 {
      return Unexpected(InvalidArgument);
    }
    if |data| != ExpectedSize(t, nSamples) {
      return Unexpected(InvalidArgument);
    }
    var samples := ReadBlocks(host, size, data, nSamples, swapBytes);
    return Value(samples);
  }

  // ------------------------------------------------------------------- packet

  datatype PacketImpl = PacketImpl(data: seq<int>, hasData: bool)

  class Packet {
    var impl: PacketImpl

    constructor ()
      ensures impl == PacketImpl([], false)
    {
      impl := PacketImpl([], false);
    }

    /** What is stored does not depend on the host: sample i is the little-endian two's complement
        integer of block i. */
    method SetData(host: Endian, t: IntegerType, data: seq<Byte>, nSamples: nat) returns (r: Outcome)
      requires nSamples < TWO_TO_32 && |data| < TWO_TO_64 / 2
      modifies this
      ensures r == if data != [] && |data| == (if t == Int32 then 4 else 8) * nSamples
                      && (t == Int32 ==> nSamples < 0x8000_0000)
                   then Pass else Throw(InvalidArgument)
      ensures r.Throw? ==> impl == old(impl)
      ensures r.Pass? ==> impl.hasData && |impl.data| == nSamples
      ensures r.Pass? ==> forall i :: 0 <= i < nSamples ==>
        Offset(i, t.Size()) + t.Size() <= |data| && impl.data[i] == Sample(Block(data, i, t.Size()))
      ensures r.Pass? && t == Int32 ==> forall i :: 0 <= i < nSamples ==>
        impl.data[i] == Sample(data[4 * i..4 * i + 4])
      ensures r.Pass? && t == Int64 ==> forall i :: 0 <= i < nSamples ==>
        impl.data[i] == Sample(data[8 * i..8 * i + 8])
    {
      if |data| == 0 {
        return Throw(InvalidArgument);
      }
      var swapBytes := if host == Little then false else true;
      var unpacked := Unpack(host, t, data, nSamples, swapBytes);
      if unpacked.Unexpected? {
        return Throw(unpacked.error);
      }
      forall i | 0 <= i < nSamples
        ensures Offset(i, t.Size()) + t.Size() <= |data| && unpacked.value[i] == Sample(Block(data, i, t.Size()))
      {
        SampleIndependentOfHost(host, Block(data, i, t.Size()));
      }
      impl := PacketImpl(unpacked.value, true);
      return Pass;
    }
  }

  // ----------------------------------------------------------------- theorems

  lemma {:induction false} WordIsBounded(bytes: seq<Byte>)
    ensures LittleEndian(bytes) < Values(|bytes|)
  {
    if bytes != [] {
      WordIsBounded(bytes[1..]);
    }
  }

  lemma {:induction false} WordsAreDifferent(a: seq<Byte>, b: seq<Byte>)
    requires |a| == |b| && LittleEndian(a) == LittleEndian(b)
    ensures a == b
  {
    if a != [] {
      assert a[0] as nat == LittleEndian(a) % 256 && b[0] as nat == LittleEndian(b) % 256;
      WordsAreDifferent(a[1..], b[1..]);
      assert a == [a[0]] + a[1..] && b == [b[0]] + b[1..];
    }
  }

  /** A sample determines its bytes. */
  lemma {:induction false} SampleIsInjective(a: seq<Byte>, b: seq<Byte>)
    requires |a| == |b|
    ensures Sample(a) == Sample(b) <==> a == b
  {
    WordIsBounded(a);
    WordIsBounded(b);
    if Sample(a) == Sample(b) {
      WordsAreDifferent(a, b);
    }
  }

  ghost predicate UnpacksTo(t: IntegerType, data: seq<Byte>, samples: seq<int>) {
    |data| == t.Size() * |samples| &&
    forall i :: 0 <= i < |samples| ==>
      Offset(i, t.Size()) + t.Size() <= |data| && samples[i] == Sample(Block(data, i, t.Size()))
  }

  /** The samples determine the data. */
  lemma {:induction false} SamplesDetermineData(t: IntegerType, a: seq<Byte>, b: seq<Byte>, samples: seq<int>)
    requires UnpacksTo(t, a, samples) && UnpacksTo(t, b, samples)
    ensures a == b
  {
    forall j | 0 <= j < |a| ensures a[j] == b[j] {
      var i, k := j / t.Size(), j % t.Size();
      assert i < |samples|;
      SampleIsInjective(Block(a, i, t.Size()), Block(b, i, t.Size()));
      assert j == Offset(i, t.Size()) + k;
      assert Block(a, i, t.Size())[k] == a[j] && Block(b, i, t.Size())[k] == b[j];
    }
  }

  /** Four bytes as a sample: the first is the least significant, and the last has the sign. */
  lemma {:induction false} SampleOfFourBytes(b0: Byte, b1: Byte, b2: Byte, b3: Byte)
    ensures Sample([b0, b1, b2, b3]) ==
            b0 as int + 0x100 * b1 as int + 0x1_0000 * b2 as int + 0x100_0000 * b3 as int
            - (if b3 >= 128 then 0x1_0000_0000 else 0)
  {
    assert [b0, b1, b2, b3][1..] == [b1, b2, b3] && [b1, b2, b3][1..] == [b2, b3] && [b2, b3][1..] == [b3];
    assert LittleEndian([b3]) == b3 as int + 256 * LittleEndian([]);
    assert LittleEndian([b2, b3]) == b2 as int + 256 * b3 as int;
    assert LittleEndian([b1, b2, b3]) == b1 as int + 256 * LittleEndian([b2, b3]);
    assert Values(4) == 256 * Values(3) && Values(3) == 256 * Values(2) && Values(2) == 256 * Values(1);
    assert Values(1) == 256;
  }

  /** The n bytes of a word, least significant first. */
  function Bytes(word: nat, n: nat): (bytes: seq<Byte>)
    ensures |bytes| == n
  {
    if n == 0 then [] else [(word % 256) as Byte] + Bytes(word / 256, n - 1)
  }

  lemma {:induction false} BytesReadBack(word: nat, n: nat)
    requires word < Values(n)
    ensures LittleEndian(Bytes(word, n)) == word
  {
    if n > 0 {
      BytesReadBack(word / 256, n - 1);
      assert Bytes(word, n)[1..] == Bytes(word / 256, n - 1);
    }
  }

  /** The block a sender writes for an integer. */
  function Encoded(value: int, n: nat): seq<Byte>
    requires n > 0 && -(Values(n) / 2) <= value < Values(n) / 2
  {
    Bytes(if value >= 0 then value else value + Values(n), n)
  }

  /** Every integer of the type survives encoding and unpacking. */
  lemma {:induction false} EncodedSampleReadsBack(value: int, n: nat)
    requires n > 0 && -(Values(n) / 2) <= value < Values(n) / 2
    ensures Sample(Encoded(value, n)) == value
  {
    BytesReadBack(if value >= 0 then value else value + Values(n), n);
  }
}
