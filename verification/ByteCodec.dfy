/** Little-endian byte encoding of the e-store records. */
module ByteCodec {
  import opened Forest
  import opened Arithmetic
  import opened Common

  /** The number stored by a little-endian byte string. */
  ghost function Le(s: seq<Byte>): nat {
    if s == [] then 0 else s[0] + 256 * Le(s[1..])
  }

  /** The low `n` bytes of `x`, least significant first. */
  function Word(x: nat, n: nat): (s: seq<Byte>)
    ensures |s| == n
  {
    if n == 0 then [] else [x % 256] + Word(x / 256, n - 1)
  }

  lemma {:induction false} WordPrefix(x: nat, n: nat, m: nat)
    requires m <= n
    ensures Word(x, n)[..m] == Word(x, m)
  {
    if m > 0 {
      WordPrefix(x / 256, n - 1, m - 1);
    }
  }

  /** Decoding an encoded number gives the number truncated to the field's width. */
  lemma {:induction false} LeWord(x: nat, n: nat)
    ensures Le(Word(x, n)) == x % Pow(256, n)
  {
    if n > 0 {
      LeWord(x / 256, n - 1);
      ModStep(x, Pow(256, n - 1));
      assert Word(x, n)[1..] == Word(x / 256, n - 1);
    }
  }

  lemma {:induction false} LeBound(s: seq<Byte>)
    ensures Le(s) < Pow(256, |s|)
  {
    if s != [] {
      LeBound(s[1..]);
    }
  }

  /** Masking a decoded word to `m` bytes is decoding its first `m` bytes. */
  lemma {:induction false} LePrefix(s: seq<Byte>, m: nat)
    requires m <= |s|
    ensures Le(s) % Pow(256, m) == Le(s[..m])
  {
    if m > 0 {
      LePrefix(s[1..], m - 1);
      ModUnique(Le(s), 256, Le(s[1..]), s[0]);
      ModStep(Le(s), Pow(256, m - 1));
      assert Pow(256, m) == 256 * Pow(256, m - 1);
      assert s[..m][1..] == s[1..][..m-1];
    }
  }

  // ---- edge records ----

  /** The layout of a record: four fields of `bt` bytes. */
  ghost function EncodeEdge(e: Edge, bt: nat): (s: seq<Byte>)
    ensures |s| == 4 * bt
  {
    Word(e.v0, bt) + Word(e.v1, bt) + Word(e.n0, bt) + Word(e.n1, bt)
  }

  ghost predicate EdgeFits(e: Edge, bt: nat) {
    e.v0 < Pow(256, bt) && e.v1 < Pow(256, bt) && e.n0 < Pow(256, bt) && e.n1 < Pow(256, bt)
  }

  /** The whole e-store. */
  ghost function EncodeAll(es: seq<Edge>, bt: nat): seq<Byte> {
    if es == [] then [] else EncodeAll(es[..|es|-1], bt) + EncodeEdge(es[|es|-1], bt)
  }

  lemma {:induction false} EncodeLength(es: seq<Edge>, bt: nat)
    ensures |EncodeAll(es, bt)| == 4 * bt * |es|
  {
    if es != [] {
      EncodeLength(es[..|es|-1], bt);
      assert 4 * bt * |es| == 4 * bt * (|es| - 1) + 4 * bt;
    }
  }

  lemma {:induction false} EncodeConcat(a: seq<Edge>, b: seq<Edge>, bt: nat)
    ensures EncodeAll(a + b, bt) == EncodeAll(a, bt) + EncodeAll(b, bt)
  {
    hide EncodeEdge;
    if b == [] {
      assert a + b == a;
    } else {
      var n := |b| - 1;
      EncodeConcat(a, b[..n], bt);
      assert (a + b)[..|a + b| - 1] == a + b[..n];
    }
  }

  /** The records before, at and behind position `k`. */
  lemma EncodeSplit(es: seq<Edge>, bt: nat, k: nat)
    requires k < |es|
    ensures EncodeAll(es, bt) == EncodeAll(es[..k], bt) + (EncodeEdge(es[k], bt) + EncodeAll(es[k+1..], bt))
  {
    hide EncodeEdge;
    assert [es[k]][..0] == [];
    assert EncodeAll([es[k]], bt) == EncodeEdge(es[k], bt);
    EncodeConcat([es[k]], es[k+1..], bt);
    EncodeConcat(es[..k], [es[k]] + es[k+1..], bt);
    assert es == es[..k] + ([es[k]] + es[k+1..]);
  }

  /** Record `k` of the store is the encoding of edge `k`. */
  lemma RecordAt(es: seq<Edge>, bt: nat, k: nat)
    requires k < |es|
    ensures 4 * bt * k + 4 * bt <= |EncodeAll(es, bt)|
    ensures EncodeAll(es, bt)[4 * bt * k .. 4 * bt * k + 4 * bt] == EncodeEdge(es[k], bt)
  {
    hide EncodeEdge, EncodeAll;
    EncodeSplit(es, bt, k);
    EncodeLength(es[..k], bt);
  }

  /** Overwriting record `k` in the bytes changes edge `k` and no other. */
  lemma RecordWrite(es: seq<Edge>, bt: nat, k: nat, e: Edge)
    requires k < |es|
    ensures 4 * bt * k + 4 * bt <= |EncodeAll(es, bt)|
    ensures var s := EncodeAll(es, bt);
            EncodeAll(es[k := e], bt) == s[.. 4 * bt * k] + EncodeEdge(e, bt) + s[4 * bt * k + 4 * bt ..]
  {
    hide EncodeEdge, EncodeAll;
    EncodeSplit(es, bt, k);
    EncodeLength(es[..k], bt);
    EncodeSplit(es[k := e], bt, k);
    assert es[k := e][..k] == es[..k] && es[k := e][k+1..] == es[k+1..];
  }

  /** Little-endian store of an 8-byte word at `off`. */
  method PutWord(buffer: array<Byte>, off: nat, x: nat)
    requires off + 8 <= buffer.Length
    modifies buffer
    ensures buffer[..] == old(buffer[..off]) + Word(x, 8) + old(buffer[off + 8..])
  {
    var w := Word(x, 8);
    forall j | 0 <= j < 8 {
      buffer[off + j] := w[j];
    }
  }

  method GetWord(buffer: array<Byte>, off: nat) returns (x: nat)
    requires off + 8 <= buffer.Length
    ensures x == Le(buffer[off .. off + 8])
  {
    x := 0;
    var j := 8;
    while j > 0
      invariant 0 <= j <= 8
      invariant x == Le(buffer[off + j .. off + 8])
    {
      j := j - 1;
      x := buffer[off + j] + 256 * x;
      assert buffer[off + j .. off + 8][1..] == buffer[off + j + 1 .. off + 8];
    }
  }

  /** graph_set_edge's local buffer: four overlapping 8-byte stores. */
  method PackEdge(e: Edge, bt: nat) returns (record: seq<Byte>)
    requires 1 <= bt <= 8
    ensures record == EncodeEdge(e, bt)
  {
    hide Word;
    var buffer := new Byte[32];
    PutField(buffer, bt, 0, e.v0);
    ghost var r1 := buffer[..bt];
    assert r1 == Word(e.v0, bt);
    PutField(buffer, bt, bt, e.v1);
    ghost var r2 := buffer[..2 * bt];
    assert r2 == r1 + Word(e.v1, bt);
    PutField(buffer, bt, 2 * bt, e.n0);
    ghost var r3 := buffer[..3 * bt];
    assert r3 == r2 + Word(e.n0, bt);
    PutField(buffer, bt, 3 * bt, e.n1);
    record := buffer[..4 * bt];
    assert record == r3 + Word(e.n1, bt);
  }

  /** Storing the field at `at` keeps the fields before it and leaves its low `bt` bytes behind them. */
  method PutField(buffer: array<Byte>, bt: nat, at: nat, x: nat)
    requires 1 <= bt <= 8 && at + 8 <= buffer.Length
    modifies buffer
    ensures buffer[..at + bt] == old(buffer[..at]) + Word(x, bt)
  {
    PutWord(buffer, at, x);
    WordPrefix(x, 8, bt);
    assert buffer[..at + bt] == buffer[..][..at + bt];
  }

  /** graph_get_edge's masked 8-byte reads; the bytes of the buffer behind the record are arbitrary. */
  method UnpackEdge(record: seq<Byte>, bt: nat, ghost e: Edge) returns (r: Edge)
    requires 1 <= bt < 8
    requires record == EncodeEdge(e, bt) && EdgeFits(e, bt)
    ensures r == e
  {
    var buffer := new Byte[32];
    forall j | 0 <= j < 4 * bt {
      buffer[j] := record[j];
    }
    Fields(record, bt, e);
    var v0 := GetField(buffer, record, bt, 0, e.v0);
    var v1 := GetField(buffer, record, bt, bt, e.v1);
    var n0 := GetField(buffer, record, bt, 2 * bt, e.n0);
    var n1 := GetField(buffer, record, bt, 3 * bt, e.n1);
    r := Edge(v0, v1, n0, n1);
  }

  lemma Fields(s: seq<Byte>, bt: nat, e: Edge)
    requires s == EncodeEdge(e, bt)
    ensures s[0 .. bt] == Word(e.v0, bt)
    ensures s[bt .. bt + bt] == Word(e.v1, bt)
    ensures s[2 * bt .. 2 * bt + bt] == Word(e.n0, bt)
    ensures s[3 * bt .. 3 * bt + bt] == Word(e.n1, bt)
  {
  }

  /** Reading eight bytes at `at` and masking them recovers the field stored there. */
  method GetField(buffer: array<Byte>, ghost record: seq<Byte>, bt: nat, at: nat, ghost x: nat) returns (r: nat)
    requires 1 <= bt < 8 && at + 8 <= buffer.Length
    requires at + bt <= |record| <= buffer.Length && forall j :: 0 <= j < |record| ==> buffer[j] == record[j]
    requires record[at .. at + bt] == Word(x, bt) && x < Pow(256, bt)
    ensures r == x
  {
    var w := GetWord(buffer, at);
    r := w % Pow(256, bt);
    assert buffer[at .. at + 8][..bt] == record[at .. at + bt];
    FieldRead(buffer[at .. at + 8], bt, x);
  }

  lemma FieldRead(word: seq<Byte>, bt: nat, x: nat)
    requires bt <= |word| && word[..bt] == Word(x, bt) && x < Pow(256, bt)
    ensures Le(word) % Pow(256, bt) == x
  {
    LePrefix(word, bt);
    LeWord(x, bt);
    ModSmall(x, Pow(256, bt));
  }
}
