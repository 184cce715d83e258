/**
  Bytes in files: overwriting in place, fixed-width integers and the size prefix of a record.
 */
module ByteFile {
  import opened Wrappers
  import opened Store
  import Words

  /** Overwrite bytes of a file; writing at the end extends it. */
  function Splice(f: Bytes, pos: nat, d: Bytes): (r: Bytes)
    requires pos <= |f|
    ensures |r| == if pos + |d| <= |f| then |f| else pos + |d|
    ensures forall i | 0 <= i < |r| :: r[i] == if pos <= i < pos + |d| then d[i - pos] else f[i]
  {
    if pos + |d| <= |f| then f[..pos] + d + f[pos + |d|..] else f[..pos] + d
  }

  function LittleEndian(n: nat, w: nat): (s: Bytes)
    ensures |s| == w
  {
    if w == 0 then [] else [n % 0x100] + LittleEndian(n / 0x100, w - 1)
  }

  function FromLittleEndian(s: Bytes): (n: nat)
  {
    if s == [] then 0 else s[0] + 0x100 * FromLittleEndian(s[1..])
  }

  function Capacity(w: nat): (n: nat)
    ensures n > 0
  {
    if w == 0 then 1 else 0x100 * Capacity(w - 1)
  }

  lemma {:induction false} LittleEndianRoundTrip(n: nat, w: nat)
    requires n < Capacity(w)
    ensures FromLittleEndian(LittleEndian(n, w)) == n
  {
    if w > 0 {
      LittleEndianRoundTrip(n / 0x100, w - 1);
      assert LittleEndian(n, w)[1..] == LittleEndian(n / 0x100, w - 1);
    }
  }

  /** The width of a compact size. */
  function CompactWidth(n: nat): (w: nat)
    ensures 1 <= w <= 9
  {
    if n < 253 then 1 else if n <= 0xffff then 3 else if n <= 0xffff_ffff then 5 else 9
  }

  function Prefix(n: nat): (s: Bytes)
    ensures |s| == CompactWidth(n)
  {
    if n < 253 then [n]
    else if n <= 0xffff then [253] + LittleEndian(n, 2)
    else if n <= 0xffff_ffff then [254] + LittleEndian(n, 4)
    else [255] + LittleEndian(n, 8)
  }

  /** The bytes of a number, lowest first. */
  lemma {:induction false} LittleEndianAt(n: nat, w: nat, i: nat)
    requires i < w
    ensures LittleEndian(n, w)[i] == n / Capacity(i) % 0x100
  {
    if i > 0 {
      LittleEndianAt(n / 0x100, w - 1, i - 1);
      Words.DivDiv(n, 0x100, Capacity(i - 1));
    }
  }

  /** The four forms of a size prefix: the number itself below 253, else a marker and the number in 2, 4 or 8 bytes. */
  lemma PrefixForms(n: nat)
    ensures n <= 252 ==> Prefix(n) == [n]
    ensures 253 <= n <= 65535 ==> |Prefix(n)| == 3 && Prefix(n)[0] == 253
    ensures 65536 <= n <= 4294967295 ==> |Prefix(n)| == 5 && Prefix(n)[0] == 254
    ensures n >= 4294967296 ==> |Prefix(n)| == 9 && Prefix(n)[0] == 255
    ensures n >= 253 ==> forall i | 1 <= i < |Prefix(n)| :: Prefix(n)[i] == n / Capacity(i - 1) % 256
  {
    if n >= 253 {
      forall i | 1 <= i < |Prefix(n)|
        ensures Prefix(n)[i] == n / Capacity(i - 1) % 256
      {
        LittleEndianAt(n, |Prefix(n)| - 1, i - 1);
      }
    }
  }
}
