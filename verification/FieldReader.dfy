/** read_field of photon_hooks.cpp and cloud_guard.h: a managed field of any width up to sixteen bytes
    read into a scalar of up to eight, through a zeroed scratch buffer. */
module FieldReader {
  import opened Wrappers

  type Byte = b: int | 0 <= b < 0x100

  const SCRATCH := 16

  /** The number that bytes stand for, lowest byte first. */
  function LittleEndian(s: seq<Byte>): nat {
    if s == [] then 0 else s[0] + 0x100 * LittleEndian(s[1..])
  }

  function Zeros(n: nat): seq<Byte> { seq(n, i => 0) }

  /** 256^width */
  function Range(width: nat): (p: nat)
    ensures p > 0
  {
    if width == 0 then 1 else 0x100 * Range(width - 1)
  }

  /** The bytes that end up in a target of the given width. */
  function Stored(field: seq<Byte>, width: nat): seq<Byte> {
    if |field| >= width then field[..width] else field + Zeros(width - |field|)
  }

  /** il2cpp_field_get_value: it copies exactly as many bytes as the field has. */
  method FieldGetValue(field: seq<Byte>, out: array<Byte>)
    requires |field| <= out.Length
    modifies out
    ensures out[..] == field + old(out[..])[|field|..]
  {
    for i := 0 to |field|
      invariant forall j :: 0 <= j < i ==> out[j] == field[j]
      invariant forall j :: i <= j < out.Length ==> out[j] == old(out[j])
    {
      out[i] := field[i];
    }
    assert out[..|field|] == field && out[|field|..] == old(out[..])[|field|..];
    assert out[..] == out[..|field|] + out[|field|..];
  }

  /** The field is null when the object, its class, the name or an export is missing. */
  method ReadField(field: Option<seq<Byte>>, width: nat) returns (value: Option<seq<Byte>>)
    requires field.Some? ==> |field.value| <= SCRATCH
    requires width <= 8
    ensures value.Some? <==> field.Some?
    ensures value.Some? ==> |value.value| == width && value.value == Stored(field.value, width)
    ensures value.Some? ==> LittleEndian(value.value) == LittleEndian(field.value) % Range(width)
  {
    if field.None? { return None; }
    var scratch := new Byte[SCRATCH](i => 0);
    assert scratch[..] == Zeros(SCRATCH);
    FieldGetValue(field.value, scratch);
    assert Zeros(SCRATCH)[|field.value|..] == Zeros(SCRATCH - |field.value|);
    value := Some(scratch[..width]);
    assert value.value == scratch[..][..width];
    FilledIsStored(field.value, width);
    StoredMeans(field.value, width);
  }

  lemma FilledIsStored(field: seq<Byte>, width: nat)
    requires |field| <= SCRATCH && width <= SCRATCH
    ensures (field + Zeros(SCRATCH - |field|))[..width] == Stored(field, width)
  {
  }

  lemma {:induction false} LittleEndianBound(s: seq<Byte>)
    ensures LittleEndian(s) < Range(|s|)
  {
    if s != [] {
      LittleEndianBound(s[1..]);
    }
  }

  lemma {:induction false} ZerosAreZero(n: nat)
    ensures LittleEndian(Zeros(n)) == 0
  {
    if n > 0 {
      ZerosAreZero(n - 1);
      assert Zeros(n)[1..] == Zeros(n - 1);
    }
  }

  lemma {:induction false} LittleEndianConcat(a: seq<Byte>, b: seq<Byte>)
    ensures LittleEndian(a + b) == LittleEndian(a) + Range(|a|) * LittleEndian(b)
  {
    if a == [] {
      assert a + b == b;
    } else {
      LittleEndianConcat(a[1..], b);
      assert (a + b)[1..] == a[1..] + b;
      var p := Range(|a| - 1);
      assert 0x100 * (p * LittleEndian(b)) == (0x100 * p) * LittleEndian(b);
    }
  }

  /** x is the remainder of x + p * high. */
  lemma RemainderOf(x: nat, p: nat, high: nat)
    requires x < p
    ensures (x + p * high) % p == x
  {
    var y := x + p * high;
    var q := y / p;
    assert y == p * q + y % p;
    assert p * (q + 1) == p * q + p && p * (high + 1) == p * high + p;
    if q < high {
      MultiplyMonotone(p, q + 1, high);
    } else if q > high {
      MultiplyMonotone(p, high + 1, q);
    }
  }

  lemma MultiplyMonotone(p: nat, a: nat, b: nat)
    requires a <= b
    ensures p * a <= p * b
  {
  }

  /** Zero-extended when the field is narrower than the target, cut off when it is wider: in both
      cases the field's value modulo 256^width. */
  lemma StoredMeans(field: seq<Byte>, width: nat)
    ensures LittleEndian(Stored(field, width)) == LittleEndian(field) % Range(width)
  {
    if |field| >= width {
      CutField(field, width);
    } else {
      var stored := Stored(field, width);
      LittleEndianConcat(field, Zeros(width - |field|));
      ZerosAreZero(width - |field|);
      LittleEndianBound(stored);
      RemainderOf(LittleEndian(stored), Range(width), 0);
    }
  }

  lemma CutField(field: seq<Byte>, width: nat)
    requires |field| >= width
    ensures LittleEndian(field[..width]) == LittleEndian(field) % Range(width)
  {
    var low, high := field[..width], field[width..];
    assert field == low + high;
    LittleEndianConcat(low, high);
    LittleEndianBound(low);
    RemainderOf(LittleEndian(low), Range(width), LittleEndian(high));
  }

  /** The value of four bytes, lowest first, and the ranges of the scalars that the program reads. */
  lemma FourBytesMean(a: Byte, b: Byte, c: Byte, d: Byte)
    ensures LittleEndian([a, b, c, d]) == a + 0x100 * b + 0x1_0000 * c + 0x100_0000 * d
    ensures Range(1) == 0x100 && Range(2) == 0x1_0000 && Range(4) == 0x1_0000_0000
    ensures Range(8) == 0x1_0000_0000_0000_0000
  {
    assert Range(4) == 0x1_0000_0000;
    assert [a, b, c, d][1..] == [b, c, d] && [b, c, d][1..] == [c, d] && [c, d][1..] == [d] && [d][1..] == [];
    assert LittleEndian([d]) == d && LittleEndian([c, d]) == c + 0x100 * d;
  }
}
