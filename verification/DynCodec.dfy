/** How mariadb_dyncol.c stores and reads single values: little-endian integers of minimal
    length, zig-zag signed integers, 7-bit groups, and packed dates and times. */
module DynCodec {
  import opened Arith
  import opened Basics

  type Uint64 = x: int | 0 <= x < 0x1_0000_0000_0000_0000
  type Int64 = x: int | -0x8000_0000_0000_0000 <= x < 0x8000_0000_0000_0000

  /** The packed record, grown at its end. */
  class DynString {
    var str: seq<Byte>

    constructor ()
      ensures str == []
    {
      str := [];
    }

    method Append(bytes: seq<Byte>)
      modifies this
      ensures str == old(str) + bytes
    {
      str := str + bytes;
    }
  }

  // ---- Unsigned integers ----

  /** Base 256, least significant byte first, no leading zero byte; zero has no bytes at all. */
  ghost function UintEncoding(val: nat): (s: seq<Byte>)
    ensures |s| > 0 ==> s[|s| - 1] != 0
  {
    if val == 0 then [] else [val % 256] + UintEncoding(val / 256)
  }

  function UintValue(s: seq<Byte>): nat {
    if s == [] then 0 else s[0] as int + 256 * UintValue(s[1..])
  }

  lemma {:induction false} UintRoundTrip(val: nat)
    ensures UintValue(UintEncoding(val)) == val
  {
    if val > 0 {
      UintRoundTrip(val / 256);
      assert UintEncoding(val)[1..] == UintEncoding(val / 256);
    }
  }

  /** A number takes as many bytes as its size asks for, a 64-bit number at most eight. */
  lemma {:induction false} UintLength(val: nat, n: nat)
    ensures |UintEncoding(val)| <= n <==> val < Exp(256, n)
  {
    if val > 0 && n > 0 {
      UintLength(val / 256, n - 1);
    }
  }

  /** Byte `k` is digit `k` to the base of 256. */
  lemma {:induction false} UintDigit(val: nat, k: nat)
    requires k < |UintEncoding(val)|
    ensures UintEncoding(val)[k] as int == val / Exp(256, k) % 256
  {
    if k > 0 {
      UintDigit(val / 256, k - 1);
      DivTwice(val, 256, Exp(256, k - 1));
    }
  }

  lemma DivTwice(x: nat, a: nat, b: nat)
    requires a > 0 && b > 0
    ensures a * b > 0 && x / (a * b) == x / a / b
  {
    var q, r := x / a / b, x / a % b;
    MulPositive(a, b);
    MulLe(r, b - 1, a);
    MulSwap(a, b, q);
    MulAdd(b, -1, a);
    assert x == a * (x / a) + x % a && x / a == b * q + r;
    assert a * (b * q + r) == (a * b) * q + a * r by { MulAdd(b * q, r, a); MulSwap(a, b, q); }
    MulComm(a, r);
    assert r * a + x % a < b * a && b * a == a * b by { MulComm(a, b); }
    DivModUnique(x, a * b, q, a * r + x % a);
  }

  lemma Base8()
    ensures Exp(256, 8) == 0x1_0000_0000_0000_0000
  {
    assert Exp(256, 4) == 0x1_0000_0000;
    assert Exp(256, 8) == 256 * (256 * (256 * (256 * Exp(256, 4))));
  }

  /** dynamic_column_uint_bytes. */
  method UintBytes(val: Uint64) returns (len: nat)
    ensures len == |UintEncoding(val)|
  {
    var v: nat := val;
    len := 0;
    while v != 0
      invariant len + |UintEncoding(v)| == |UintEncoding(val)|
    {
      v := v / 256;
      len := len + 1;
    }
  }

  /** dynamic_column_uint_store. */
  method UintStore(str: DynString, val: Uint64)
    modifies str
    ensures str.str == old(str.str) + UintEncoding(val)
  {
    var v: nat := val;
    while v != 0
      invariant str.str + UintEncoding(v) == old(str.str) + UintEncoding(val)
    {
      str.str := str.str + [v % 256];
      v := v / 256;
    }
  }

  /** dynamic_column_uint_read. */
  method UintRead(data: seq<Byte>) returns (value: nat)
    requires |data| <= 8
    ensures value == UintValue(data) && value < 0x1_0000_0000_0000_0000
  {
    hide UintValue, Exp;
    ghost var total := UintValue(data);
    value := 0;
    var shift: nat := 1;
    ReadStart(data);
    for i := 0 to |data|
      invariant ReadUpTo(data, i, shift, value, total)
    {
      ShiftIn(data, i, shift, value, total);
      value := value + data[i] * shift;
      shift := shift * 256;
    }
    ReadEnd(data, shift, value, total);
  }

  /** The bytes before `i` are in `value`, and byte `i` counts `shift` times. */
  ghost predicate ReadUpTo(data: seq<Byte>, i: nat, shift: nat, value: nat, total: nat) {
    i <= |data| && shift == Exp(256, i) && value < shift && value + shift * UintValue(data[i..]) == total
  }

  lemma ReadStart(data: seq<Byte>)
    ensures ReadUpTo(data, 0, 1, 0, UintValue(data))
  {
    assert data[0..] == data;
  }

  lemma ReadEnd(data: seq<Byte>, shift: nat, value: nat, total: nat)
    requires |data| <= 8 && ReadUpTo(data, |data|, shift, value, total)
    ensures value == total && value < 0x1_0000_0000_0000_0000
  {
    assert data[|data|..] == [];
    Base8();
    ExpMono(256, |data|, 8);
  }

  lemma ShiftIn(data: seq<Byte>, i: nat, shift: nat, value: nat, total: nat)
    requires i < |data| && ReadUpTo(data, i, shift, value, total)
    ensures value + data[i] * shift >= 0 && ReadUpTo(data, i + 1, shift * 256, value + data[i] * shift, total)
  {
    assert data[i..][1..] == data[i + 1..];
    var d: nat := data[i];
    Regroup(shift, d, UintValue(data[i + 1..]));
  }

  lemma Regroup(shift: nat, d: nat, w: nat)
    ensures shift * (d + 256 * w) == d * shift + shift * 256 * w
    ensures d < 256 ==> d * shift + shift <= shift * 256
  {
    if d < 256 { assert (255 - d) * shift >= 0; }
  }

  // ---- Signed integers: 0, -1, 1, -2, 2, ... become 0, 1, 2, 3, 4, ... ----

  /** `(val << 1) ^ (val < 0 ? ~0 : 0)` in 64 bits: complementing a word subtracts it from the
      largest one. */
  function ZigZag(val: Int64): (u: Uint64)
    ensures u % 2 == if val < 0 then 1 else 0
  {
    var doubled := 2 * val % 0x1_0000_0000_0000_0000;
    if val < 0 then 0xFFFF_FFFF_FFFF_FFFF - doubled else doubled
  }

  /** The reverse, with the result read as a signed word. */
  function UnZigZag(u: Uint64): Int64 {
    var half := u / 2;
    var word := if u % 2 == 1 then 0xFFFF_FFFF_FFFF_FFFF - half else half;
    if word < 0x8000_0000_0000_0000 then word else word - 0x1_0000_0000_0000_0000
  }

  /** Codes grow with the size of the number. */
  lemma ZigZagIs(val: Int64)
    ensures ZigZag(val) == if val >= 0 then 2 * val else -2 * val - 1
  {
  }

  /** So a signed number takes as many bytes as its size in two's complement asks for. */
  lemma SignedLength(val: Int64, n: nat)
    requires n > 0
    ensures |UintEncoding(ZigZag(val))| <= n <==> -(Exp(2, 8 * n - 1) as int) <= val < Exp(2, 8 * n - 1)
  {
    UintLength(ZigZag(val), n);
    ZigZagIs(val);
    Octets(n);
    hide UintEncoding, ZigZag;
  }

  lemma {:induction false} Octets(n: nat)
    ensures Exp(256, n) == Exp(2, 8 * n)
  {
    if n > 0 {
      Octets(n - 1);
      ExpAdd(2, 8, 8 * (n - 1));
      assert Exp(2, 8) == 256;
    }
  }

  /** Both directions: every 64-bit word is the code of exactly one signed number. */
  lemma ZigZagInverse(val: Int64, u: Uint64)
    ensures UnZigZag(ZigZag(val)) == val && ZigZag(UnZigZag(u)) == u
  {
  }

  // ---- Variable-length unsigned integers: 7 bits a byte, the top bit says that more follow ----

  ghost function VarUint(val: nat): (s: seq<Byte>)
    ensures |s| > 0
  {
    if val < 128 then [val] else [val % 128 + 128] + VarUint(val / 128)
  }

  /** Byte `k` is digit `k` to the base of 128, and all but the last have the top bit. */
  lemma {:induction false} VarUintDigit(val: nat, k: nat)
    requires k < |VarUint(val)|
    ensures VarUint(val)[k] as int == val / Exp(128, k) % 128 + if k < |VarUint(val)| - 1 then 128 else 0
  {
    if k > 0 {
      VarUintDigit(val / 128, k - 1);
      DivTwice(val, 128, Exp(128, k - 1));
    }
  }

  /** There are as many groups as the number needs. */
  lemma {:induction false} VarUintLength(val: nat, n: nat)
    requires n > 0
    ensures |VarUint(val)| <= n <==> val < Exp(128, n)
  {
    if val >= 128 && n > 1 {
      VarUintLength(val / 128, n - 1);
    }
  }

  /** dynamic_column_var_uint_bytes. */
  method VarUintBytes(val: Uint64) returns (len: nat)
    ensures len == |VarUint(val)|
  {
    len := 1;
    var v: nat := val / 128;
    while v != 0
      invariant len + (if v == 0 then 0 else |VarUint(v)|) == |VarUint(val)|
    {
      len := len + 1;
      v := v / 128;
    }
  }

  /** dynamic_column_var_uint_store. */
  method VarUintStore(str: DynString, val: Uint64)
    modifies str
    ensures str.str == old(str.str) + VarUint(val)
  {
    var v: nat := val;
    var rest := v / 128;
    while rest != 0
      invariant rest == v / 128 && str.str + VarUint(v) == old(str.str) + VarUint(val)
    {
      str.str := str.str + [v % 128 + 128];
      v := rest;
      rest := v / 128;
    }
    str.str := str.str + [v];
  }

  /** What the bytes up to the first one without top bit denote, and how many they are; nothing if
      there is no such byte. */
  ghost function VarUintValue(data: seq<Byte>): (nat, nat) {
    if data == [] then (0, 0)
    else if data[0] < 128 then (data[0], 1)
    else
      var (value, len) := VarUintValue(data[1..]);
      if len == 0 then (0, 0) else (data[0] - 128 + 128 * value, len + 1)
  }

  lemma {:induction false} VarUintRoundTrip(val: nat, rest: seq<Byte>)
    ensures VarUintValue(VarUint(val) + rest) == (val, |VarUint(val)|)
  {
    if val >= 128 {
      VarUintRoundTrip(val / 128, rest);
      assert (VarUint(val) + rest)[1..] == VarUint(val / 128) + rest;
    }
  }

  /** dynamic_column_var_uint_get; `len` 0 marks an error. */
  method VarUintGet(data: seq<Byte>) returns (val: nat, len: nat)
    ensures (val, len) == VarUintValue(data)
  {
    val, len := 0, 0;
    var shift: nat, i := 1, 0;
    while i < |data|
      invariant 0 <= i <= |data| && val >= 0 && len == 0
      invariant var (v, n) := VarUintValue(data[i..]);
        VarUintValue(data) == if n == 0 then (0, 0) else (val + shift * v, i + n)
    {
      Group(data, i, val, shift);
      val := val + data[i] % 128 * shift;
      if data[i] < 128 {
        len := i + 1;
        return;
      }
      shift := shift * 128;
      i := i + 1;
    }
    assert data[i..] == [];
    val := 0;
  }

  lemma Group(data: seq<Byte>, i: nat, val: nat, shift: nat)
    requires i < |data|
    ensures data[i] < 128 ==> VarUintValue(data[i..]) == (data[i] % 128, 1)
    ensures data[i] >= 128 ==>
      var ((v, n), (w, m)) := (VarUintValue(data[i..]), VarUintValue(data[i + 1..]));
      if m == 0 then n == 0 && v == 0
      else n == m + 1 && val + shift * v == val + data[i] % 128 * shift + shift * 128 * w
    ensures data[i] % 128 * shift == shift * (data[i] % 128)
  {
    assert data[i..][1..] == data[i + 1..];
    var g: nat := data[i] % 128;
    assert data[i] >= 128 ==> g == data[i] - 128;
    Distribute(shift, g, VarUintValue(data[i + 1..]).0);
  }

  lemma Distribute(shift: nat, g: nat, w: nat)
    ensures shift * (g + 128 * w) == g * shift + shift * 128 * w && g * shift == shift * g
  {
  }
}
