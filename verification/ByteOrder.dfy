/** Big-endian unsigned integers of a given width, as encoding/binary writes and reads them. */
module ByteOrder {
  import opened Types

  function Pow256(width: nat): (n: nat)
    ensures n > 0
  {
    if width == 0 then 1 else 256 * Pow256(width - 1)
  }

  function PutUint(n: nat, width: nat): (s: seq<byte>)
    requires n < Pow256(width)
    ensures |s| == width
  {
    if width == 0 then [] else PutUint(n / 256, width - 1) + [n % 256]
  }

  function GetUint(s: seq<byte>): (n: nat)
    ensures n < Pow256(|s|)
  {
    if s == [] then 0 else 256 * GetUint(s[..|s| - 1]) + s[|s| - 1]
  }

  lemma {:induction false} GetPut(n: nat, width: nat)
    requires n < Pow256(width)
    ensures GetUint(PutUint(n, width)) == n
  {
    if width > 0 {
      GetPut(n / 256, width - 1);
      assert PutUint(n, width)[..width - 1] == PutUint(n / 256, width - 1);
    }
  }

  lemma {:induction false} PutGet(s: seq<byte>)
    ensures PutUint(GetUint(s), |s|) == s
  {
    if s != [] {
      PutGet(s[..|s| - 1]);
      assert GetUint(s) / 256 == GetUint(s[..|s| - 1]) && GetUint(s) % 256 == s[|s| - 1];
    }
  }

  lemma Widths()
    ensures Pow256(1) == 0x100 && Pow256(2) == 0x1_0000 && Pow256(4) == 0x1_0000_0000
    ensures Pow256(8) == 0x1_0000_0000_0000_0000
  {
    assert Pow256(3) == 0x100_0000;
    assert Pow256(4) == 256 * Pow256(3);
    assert Pow256(5) == 0x100_0000_0000;
    assert Pow256(6) == 0x1_0000_0000_0000;
    assert Pow256(7) == 256 * Pow256(6);
  }

  /** Writes an integer into a buffer and nothing else. */
  method PutUintAt(buf: array<byte>, off: nat, width: nat, n: nat)
    requires off + width <= buf.Length && n < Pow256(width)
    modifies buf
    ensures buf[..] == old(buf[..])[..off] + PutUint(n, width) + old(buf[..])[off + width..]
  {
    ghost var was := buf[..];
    var i: nat, rest: nat := width, n;
    while i > 0
      invariant 0 <= i <= width && rest < Pow256(i)
      invariant PutUint(n, width) == PutUint(rest, i) + buf[off + i..off + width]
      invariant buf[..off + i] == was[..off + i] && buf[off + width..] == was[off + width..]
    {
      i := i - 1;
      ghost var done := buf[off + i + 1..off + width];
      buf[off + i] := rest % 256;
      assert buf[off + i..off + width] == [rest % 256] + done;
      rest := rest / 256;
    }
    assert buf[..] == buf[..off] + buf[off..off + width] + buf[off + width..];
  }

  /** Copies bytes into a buffer and touches nothing else. */
  method CopyAt(buf: array<byte>, off: nat, s: seq<byte>)
    requires off + |s| <= buf.Length
    modifies buf
    ensures buf[..] == old(buf[..])[..off] + s + old(buf[..])[off + |s|..]
  {
    ghost var was := buf[..];
    for i := 0 to |s|
      invariant buf[..off] == was[..off] && buf[off..off + i] == s[..i] && buf[off + i..] == was[off + i..]
    {
      buf[off + i] := s[i];
      assert buf[off..off + i + 1] == buf[off..off + i] + [s[i]];
    }
    assert buf[..] == buf[..off] + buf[off..off + |s|] + buf[off + |s|..];
  }

  // ---- Signed 64-bit integers ----

  predicate IsInt64(i: int) {
    -0x8000_0000_0000_0000 <= i < 0x8000_0000_0000_0000
  }

  /** The conversion of an int64 to uint64 and back. */
  function ToUint64(i: int): (n: nat)
    requires IsInt64(i)
    ensures n < 0x1_0000_0000_0000_0000
  {
    if i >= 0 then i else i + 0x1_0000_0000_0000_0000
  }

  function ToInt64(n: nat): (i: int)
    requires n < 0x1_0000_0000_0000_0000
    ensures IsInt64(i) && ToUint64(i) == n
  {
    if n < 0x8000_0000_0000_0000 then n else n - 0x1_0000_0000_0000_0000
  }
}
