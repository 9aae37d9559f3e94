/**
 The rolling-key obfuscation of the shared memory: the agents' byte loop, and
 the orchestrator's vector and scalar paths, which all compute one mask.
 */
module Morph {

  import opened Bytes

  /** What the processor offers: the vector width is part of the source's gates. */
  datatype Cpu = Avx2 | Neon | Scalar

  /** Byte i is masked with byte i of the endlessly repeated key. */
  function Morphed(data: seq<Byte>, key: seq<Byte>): seq<Byte> {
    if key == [] then data else seq(|data|, i requires 0 <= i < |data| => Xor(data[i], key[i % |key|]))
  }

  /** Masking twice with one key restores the data. */
  lemma MorphedTwice(data: seq<Byte>, key: seq<Byte>)
    ensures Morphed(Morphed(data, key), key) == data
  {
    var once := Morphed(data, key);
    if key != [] {
      forall i | 0 <= i < |data| ensures Morphed(once, key)[i] == data[i] {
      }
    }
  }

  lemma Remainder(a: nat, w: nat, q: nat, r: nat)
    requires r < w && a == w * q + r
    ensures a % w == r
  {
    var d := a / w - q;
    assert a == w * (a / w) + a % w;
    assert w * d == r - a % w;
  }

  /** After whole vectors the key starts over. */
  lemma Aligned(w: nat, m: nat, k: nat)
    requires k < w
    ensures (w * m + k) % w == k
  {
    Remainder(w * m + k, w, m, k);
  }

  /** The agents' loop, over an event before it is pushed and over a command after it is read. */
  method Obfuscate(data: array<Byte>, key: seq<Byte>)
    modifies data
    ensures data[..] == Morphed(old(data[..]), key)
    ensures forall i :: 0 <= i < data.Length ==>
      data[i] == if key == [] then old(data[i]) else Xor(old(data[i]), key[i % |key|])
  {
    if key != [] {
      for i := 0 to data.Length
        invariant forall j :: 0 <= j < i ==> data[j] == Xor(old(data[j]), key[j % |key|])
        invariant forall j :: i <= j < data.Length ==> data[j] == old(data[j])
      {
        data[i] := Xor(data[i], key[i % |key|]);
      }
    }
  }

  /** From a vector boundary on, masking uses the key from its start. */
  lemma MaskAt(data: seq<Byte>, key: seq<Byte>, m: nat, k: nat)
    requires k < |key| && |key| * m + k < |data|
    ensures Morphed(data, key)[|key| * m + k] == Xor(data[|key| * m + k], key[k])
  {
    Aligned(|key|, m, k);
  }

  lemma MaskBlock(data: seq<Byte>, key: seq<Byte>, c: nat, m: nat, n: nat)
    requires c == |key| * m && n <= |key| && c + n <= |data|
    ensures forall j :: c <= j < c + n ==> Morphed(data, key)[j] == Xor(data[j], key[j - c])
  {
    forall j | c <= j < c + n ensures Morphed(data, key)[j] == Xor(data[j], key[j - c]) {
      MaskAt(data, key, m, j - c);
    }
  }

  /** One vector operation. */
  method XorVector(data: array<Byte>, key: seq<Byte>, c: nat)
    requires c + |key| <= data.Length
    modifies data
    ensures forall j :: c <= j < c + |key| ==> data[j] == Xor(old(data[j]), key[j - c])
    ensures forall j :: 0 <= j < c || c + |key| <= j < data.Length ==> data[j] == old(data[j])
  {
    forall j | c <= j < c + |key| { data[j] := Xor(data[j], key[j - c]); }
  }

  ghost predicate DoneUpTo(data: seq<Byte>, full: seq<Byte>, was: seq<Byte>, c: nat) {
    |data| == |full| == |was| && c <= |data| &&
    (forall j :: 0 <= j < c ==> data[j] == full[j]) && (forall j :: c <= j < |data| ==> data[j] == was[j])
  }

  /** Whole vectors first, each masked in one operation; then the remainder byte by byte. */
  method XorVectors(data: array<Byte>, key: seq<Byte>)
    requires key != []
    modifies data
    ensures data[..] == Morphed(old(data[..]), key)
  {
    ghost var was := data[..];
    ghost var full := Morphed(was, key);
    var c := 0;
    ghost var m := 0;
    while c + |key| <= data.Length
      invariant c == |key| * m && DoneUpTo(data[..], full, was, c)
    {
      MaskBlock(was, key, c, m, |key|);
      ghost var before := data[..];
      XorVector(data, key, c);
      c, m := c + |key|, m + 1;
    }
    MaskBlock(was, key, c, m, data.Length - c);
    XorRemainder(data, key, c, full, was);
  }

  method XorRemainder(data: array<Byte>, key: seq<Byte>, c: nat, ghost full: seq<Byte>, ghost was: seq<Byte>)
    requires DoneUpTo(data[..], full, was, c) && data.Length - c < |key|
    requires forall j :: c <= j < data.Length ==> full[j] == Xor(was[j], key[j - c])
    modifies data
    ensures data[..] == full
  {
    for i := 0 to data.Length - c
      invariant DoneUpTo(data[..], full, was, c + i)
    {
      Remainder(i, |key|, 0, i);
      data[c + i] := Xor(data[c + i], key[i % |key|]);
    }
  }

  /** The exported entry point; a null pointer is a missing array or an empty key. */
  method FastMorph(data: array?<Byte>, key: seq<Byte>, cpu: Cpu)
    modifies data
    ensures data != null ==> data[..] == Morphed(old(data[..]), key)
    ensures data != null ==> forall i :: 0 <= i < data.Length ==>
      data[i] == if key == [] then old(data[i]) else Xor(old(data[i]), key[i % |key|])
  {
    if data == null || |key| == 0 { return; }
    if cpu == Avx2 && |key| == 32 { XorVectors(data, key); return; }
    if cpu == Neon && |key| == 16 { XorVectors(data, key); return; }
    Obfuscate(data, key);
  }

  /** Whatever processors the two sides run on, the orchestrator reads what the agent wrote. */
  method RoundTrip(data: array<Byte>, key: seq<Byte>, cpu: Cpu)
    modifies data
    ensures data[..] == old(data[..])
  {
    Obfuscate(data, key);
    FastMorph(data, key, cpu);
    MorphedTwice(old(data[..]), key);
  }
}
