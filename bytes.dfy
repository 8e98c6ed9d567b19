/** Fixed-width little-endian integer fields over a byte buffer.

    The fragment payload is decoded by a foreign library whose structure
    layout is not part of this model; the model fixes an explicit layout
    instead: every field is an unsigned little-endian integer of a declared
    byte width, and a record is its fields laid end to end. */
module Bytes {

  newtype byte = x: int | 0 <= x < 256

  /** 256 to the power `w`: the number of values a `w`-byte field can hold. */
  function Pow256(w: nat): (r: nat)
    ensures r >= 1
  {
    if w == 0 then 1 else 256 * Pow256(w - 1)
  }

  /** The unsigned little-endian integer held by the first `w` bytes of `s`. */
  function ReadUint(s: seq<byte>, w: nat): (r: nat)
    requires w <= |s|
    ensures r < Pow256(w)
  {
    if w == 0 then 0 else s[0] as nat + 256 * ReadUint(s[1..], w - 1)
  }

  /** The `w` little-endian bytes of `x`. */
  function WriteUint(x: nat, w: nat): (r: seq<byte>)
    requires x < Pow256(w)
    ensures |r| == w
  {
    if w == 0 then [] else [(x % 256) as byte] + WriteUint(x / 256, w - 1)
  }

  /** Reading back what was written yields the value, whatever follows it. */
  lemma {:induction false} ReadWriteUint(x: nat, w: nat, rest: seq<byte>)
    requires x < Pow256(w)
    ensures ReadUint(WriteUint(x, w) + rest, w) == x
  {
    if w > 0 {
      var s := WriteUint(x, w) + rest;
      assert s[1..] == WriteUint(x / 256, w - 1) + rest;
      ReadWriteUint(x / 256, w - 1, rest);
    }
  }

  /** A field read depends only on the bytes it covers. */
  lemma {:induction false} ReadUintPrefix(s: seq<byte>, t: seq<byte>, w: nat)
    requires w <= |s|
    ensures ReadUint(s + t, w) == ReadUint(s, w)
  {
    if w > 0 {
      assert (s + t)[1..] == s[1..] + t;
      ReadUintPrefix(s[1..], t, w - 1);
    }
  }

  /** Total width of a list of field widths. */
  function Sum(ws: seq<nat>): nat
  {
    if ws == [] then 0 else ws[0] + Sum(ws[1..])
  }

  /** Every value fits the field width at the same position. */
  predicate Fits(vs: seq<nat>, ws: seq<nat>)
  {
    |vs| == |ws| && forall i :: 0 <= i < |vs| ==> vs[i] < Pow256(ws[i])
  }

  /** The values of consecutive fields of widths `ws` at the start of `s`. */
  function ReadFields(s: seq<byte>, ws: seq<nat>): (vs: seq<nat>)
    requires Sum(ws) <= |s|
    ensures Fits(vs, ws)
    decreases |ws|
  {
    if ws == [] then []
    else [ReadUint(s, ws[0])] + ReadFields(s[ws[0]..], ws[1..])
  }

  /** Consecutive fields holding `vs` with widths `ws`. */
  function WriteFields(vs: seq<nat>, ws: seq<nat>): (r: seq<byte>)
    requires Fits(vs, ws)
    ensures |r| == Sum(ws)
    decreases |ws|
  {
    if ws == [] then []
    else WriteUint(vs[0], ws[0]) + WriteFields(vs[1..], ws[1..])
  }

  /** Reading the fields back yields the values, whatever follows them. */
  lemma {:induction false} ReadWriteFields(vs: seq<nat>, ws: seq<nat>, rest: seq<byte>)
    requires Fits(vs, ws)
    ensures ReadFields(WriteFields(vs, ws) + rest, ws) == vs
    decreases |ws|
  {
    if ws != [] {
      var head := WriteUint(vs[0], ws[0]);
      var tail := WriteFields(vs[1..], ws[1..]);
      var s := WriteFields(vs, ws) + rest;
      assert s == head + (tail + rest);
      ReadWriteUint(vs[0], ws[0], tail + rest);
      assert s[ws[0]..] == tail + rest;
      assert Fits(vs[1..], ws[1..]) by {
        forall i | 0 <= i < |vs[1..]| ensures vs[1..][i] < Pow256(ws[1..][i]) {
          assert vs[1..][i] == vs[i + 1] && ws[1..][i] == ws[i + 1];
        }
      }
      ReadWriteFields(vs[1..], ws[1..], rest);
    }
  }

  /** The width of a field list grows by the width of a field added last. */
  lemma {:induction false} SumSnoc(ws: seq<nat>, w: nat)
    ensures Sum(ws + [w]) == Sum(ws) + w
    decreases |ws|
  {
    if ws != [] {
      assert (ws + [w])[1..] == ws[1..] + [w];
      SumSnoc(ws[1..], w);
    } else {
      assert [] + [w] == [w];
    }
  }

  /** The offset of field `i + 1` is that of field `i` plus its width. */
  lemma SumPrefixStep(ws: seq<nat>, i: nat)
    requires i < |ws|
    ensures Sum(ws[..i + 1]) == Sum(ws[..i]) + ws[i]
  {
    assert ws[..i + 1] == ws[..i] + [ws[i]];
    SumSnoc(ws[..i], ws[i]);
  }

  /** The first field read is the integer at offset 0. */
  lemma ReadFieldsFirst(s: seq<byte>, ws: seq<nat>)
    requires Sum(ws) <= |s| && 0 < |ws|
    ensures Sum(ws[..0]) == 0 && ws[0] <= |s|
    ensures ReadFields(s, ws)[0] == ReadUint(s[0..], ws[0])
  {
    assert ws[..0] == [];
    assert s[0..] == s;
  }

  /** Past the first field, the fields read are those of the rest. */
  lemma ReadFieldsTail(s: seq<byte>, ws: seq<nat>, i: nat)
    requires Sum(ws) <= |s| && 0 < i < |ws|
    ensures ws[0] <= |s| && Sum(ws[1..]) <= |s| - ws[0]
    ensures ReadFields(s, ws)[i] == ReadFields(s[ws[0]..], ws[1..])[i - 1]
    ensures ws[1..][i - 1] == ws[i]
  {
  }

  /** The offset of field `i > 0` is the first width plus the offset of
      field `i - 1` among the rest. */
  lemma SumPrefixTail(ws: seq<nat>, i: nat)
    requires 0 < i <= |ws|
    ensures Sum(ws[..i]) == ws[0] + Sum(ws[1..][..i - 1])
  {
    assert ws[..i][1..] == ws[1..][..i - 1];
  }

  /** Dropping `a` bytes and then `b` drops `c = a + b`. */
  lemma SkipTwice(s: seq<byte>, a: nat, b: nat, c: nat)
    requires c == a + b <= |s|
    ensures s[a..][b..] == s[c..]
  {
  }

  /** The i-th field read is the integer at the i-th field's offset, the
      total width of the fields before it. */
  lemma {:induction false} ReadFieldsAt(s: seq<byte>, ws: seq<nat>, i: nat, off: nat)
    requires Sum(ws) <= |s| && i < |ws| && off == Sum(ws[..i])
    ensures off + ws[i] <= |s|
    ensures ReadFields(s, ws)[i] == ReadUint(s[off..], ws[i])
    decreases i
  {
    if i == 0 {
      ReadFieldsFirst(s, ws);
    } else {
      var k := Sum(ws[1..][..i - 1]);
      ReadFieldsTail(s, ws, i);
      SumPrefixTail(ws, i);
      ReadFieldsAt(s[ws[0]..], ws[1..], i - 1, k);
      SkipTwice(s, ws[0], k, off);
    }
  }

  /** A record read depends only on the bytes its fields cover. */
  lemma {:induction false} ReadFieldsPrefix(s: seq<byte>, t: seq<byte>, ws: seq<nat>)
    requires Sum(ws) <= |s|
    ensures ReadFields(s + t, ws) == ReadFields(s, ws)
    decreases |ws|
  {
    if ws != [] {
      ReadUintPrefix(s, t, ws[0]);
      assert (s + t)[ws[0]..] == s[ws[0]..] + t;
      ReadFieldsPrefix(s[ws[0]..], t, ws[1..]);
    }
  }

  const TwoTo8: int := 0x100
  const TwoTo16: int := 0x1_0000
  const TwoTo31: int := 0x8000_0000
  const TwoTo32: int := 0x1_0000_0000
  const TwoTo64: int := 0x1_0000_0000_0000_0000

  /** The ranges of the 1-, 2-, 4- and 8-byte fields. */
  lemma FieldRanges()
    ensures Pow256(1) == TwoTo8 && Pow256(2) == TwoTo16
    ensures Pow256(4) == TwoTo32 && Pow256(8) == TwoTo64
  {
    assert Pow256(2) == 65536;
    assert Pow256(4) == TwoTo32;
  }

  predicate IsInt32(x: int)
  {
    -TwoTo31 <= x < TwoTo31
  }

  /** The signed 32-bit value whose two's-complement bit pattern is `u`. */
  function FromTwosComplement32(u: nat): (x: int)
    requires u < TwoTo32
    ensures IsInt32(x)
    ensures x % TwoTo32 == u
  {
    if u < TwoTo31 then u else u - TwoTo32
  }

  /** The two's-complement bit pattern of a signed 32-bit value. */
  function ToTwosComplement32(x: int): (u: nat)
    requires IsInt32(x)
    ensures u < TwoTo32
    ensures FromTwosComplement32(u) == x
  {
    if x < 0 then x + TwoTo32 else x
  }

  /** Every 32-bit pattern is the pattern of the value it denotes. */
  lemma TwosComplementInverse(u: nat)
    requires u < TwoTo32
    ensures ToTwosComplement32(FromTwosComplement32(u)) == u
  {
  }
}
