/** Primary keys of the platform's models are 128-bit UUIDs. The publish task
    receives them as text, `str(pk)`: Python's canonical UUID form, the 32
    lower-case hexadecimal digits of the value grouped 8-4-4-4-12 by hyphens.
    `Parse` reads that form back, so the task can re-resolve the very objects
    the request named. */
module Uuids {
  import opened Results

  const UuidLimit: nat := 0x1_0000_0000_0000_0000_0000_0000_0000_0000

  type Uuid = n: nat | n < UuidLimit

  /** Length of the canonical text form. */
  const CanonicalLength: nat := 36

  function Pow16(k: nat): (r: nat)
    ensures r >= 1
  {
    if k == 0 then 1 else 16 * Pow16(k - 1)
  }

  lemma {:induction false} Pow16Add(a: nat, b: nat)
    ensures Pow16(a + b) == Pow16(a) * Pow16(b)
    decreases a
  {
    if a > 0 {
      Pow16Add(a - 1, b);
    }
  }

  /** 32 hexadecimal digits hold exactly the 128 bits of a UUID. */
  lemma Pow16Of32()
    ensures Pow16(32) == UuidLimit
  {
    assert Pow16(2) == 0x100;
    Pow16Add(2, 2);
    Pow16Add(4, 4);
    Pow16Add(8, 8);
    Pow16Add(16, 16);
  }

  predicate IsHexDigit(c: char) {
    '0' <= c <= '9' || 'a' <= c <= 'f'
  }

  /** The digit `'%x'` prints for a value below 16. */
  function DigitChar(d: nat): (c: char)
    requires d < 16
    ensures IsHexDigit(c) && DigitValue(c) == d
  {
    if d < 10 then ('0' as int + d) as char else ('a' as int + d - 10) as char
  }

  function DigitValue(c: char): (d: nat)
    requires IsHexDigit(c)
    ensures d < 16
  {
    if c <= '9' then c as int - '0' as int else c as int - 'a' as int + 10
  }

  predicate AllHex(s: string) {
    forall i :: 0 <= i < |s| ==> IsHexDigit(s[i])
  }

  /** `'%0*x' % (width, n)` for `n` below 16^width: the last `width`
      hexadecimal digits of `n`, most significant first. */
  function HexDigits(n: nat, width: nat): (s: string)
    ensures |s| == width
    ensures AllHex(s)
    decreases width
  {
    if width == 0 then [] else HexDigits(n / 16, width - 1) + [DigitChar(n % 16)]
  }

  /** The number a string of hexadecimal digits denotes. */
  function HexValue(s: string): (n: nat)
    requires AllHex(s)
    ensures n < Pow16(|s|)
  {
    if |s| == 0 then 0
    else
      var prefix := s[..|s| - 1];
      assert AllHex(prefix) by {
        forall i | 0 <= i < |prefix| ensures IsHexDigit(prefix[i]) {
          assert prefix[i] == s[i];
        }
      }
      var high := HexValue(prefix);
      var low := DigitValue(s[|s| - 1]);
      assert high * 16 + low < Pow16(|s|) by {
        assert high <= Pow16(|prefix|) - 1;
        MulMonotone(high, Pow16(|prefix|) - 1, 16);
      }
      high * 16 + low
  }

  lemma MulMonotone(a: nat, b: nat, k: nat)
    requires a <= b
    ensures a * k <= b * k
  {
  }

  predicate IsHyphenPosition(i: int) {
    i == 8 || i == 13 || i == 18 || i == 23
  }

  /** The strings `str(uuid)` can produce: 36 characters, hyphens exactly at
      positions 8, 13, 18 and 23, lower-case hexadecimal digits elsewhere. */
  predicate IsCanonical(s: string) {
    && |s| == CanonicalLength
    && (forall i :: 0 <= i < |s| ==> (s[i] == '-' <==> IsHyphenPosition(i)))
    && (forall i :: 0 <= i < |s| && !IsHyphenPosition(i) ==> IsHexDigit(s[i]))
  }

  /** Splits 32 digits into the 8-4-4-4-12 groups. */
  function Group(h: string): (s: string)
    requires |h| == 32
  {
    h[..8] + "-" + h[8..12] + "-" + h[12..16] + "-" + h[16..20] + "-" + h[20..]
  }

  /** Drops the four hyphens of a canonical string. */
  function Ungroup(s: string): (h: string)
    requires |s| == CanonicalLength
  {
    s[..8] + s[9..13] + s[14..18] + s[19..23] + s[24..]
  }

  /** Grouping 32 hexadecimal digits gives a canonical string. */
  lemma GroupIsCanonical(h: string)
    requires |h| == 32 && AllHex(h)
    ensures IsCanonical(Group(h))
  {
    var s := Group(h);
    forall i | 0 <= i < 36
      ensures s[i] == '-' <==> IsHyphenPosition(i)
      ensures !IsHyphenPosition(i) ==> IsHexDigit(s[i])
    {
      if i < 8 {
        assert s[i] == h[i];
      } else if i == 8 || i == 13 || i == 18 || i == 23 {
      } else if i < 13 {
        assert s[i] == h[i - 1];
      } else if i < 18 {
        assert s[i] == h[i - 2];
      } else if i < 23 {
        assert s[i] == h[i - 3];
      } else {
        assert s[i] == h[i - 4];
      }
    }
  }

  /** `str(u)` for a UUID `u`. */
  function Str(u: Uuid): (s: string)
    ensures IsCanonical(s)
  {
    GroupIsCanonical(HexDigits(u, 32));
    Group(HexDigits(u, 32))
  }

  /** Reads a canonical UUID string back into its value; `None` for any other string. */
  function Parse(s: string): (r: Option<Uuid>)
    ensures r.Some? <==> IsCanonical(s)
  {
    if IsCanonical(s) then
      var h := Ungroup(s);
      assert forall i :: 0 <= i < 32 ==> h[i] == if i < 8 then s[i] else if i < 12 then s[i + 1]
        else if i < 16 then s[i + 2] else if i < 20 then s[i + 3] else s[i + 4];
      assert AllHex(h);
      Pow16Of32();
      Some(HexValue(h))
    else
      None
  }

  lemma DigitCharOfValue(c: char)
    requires IsHexDigit(c)
    ensures DigitChar(DigitValue(c)) == c
  {
  }

  /** Printing `n` in `width` digits and reading the digits back gives `n`. */
  lemma {:induction false} HexValueOfDigits(n: nat, width: nat)
    requires n < Pow16(width)
    ensures HexValue(HexDigits(n, width)) == n
    decreases width
  {
    if width > 0 {
      var s := HexDigits(n, width);
      assert s[..width - 1] == HexDigits(n / 16, width - 1);
      HexValueOfDigits(n / 16, width - 1);
    }
  }

  /** Reading a digit string and printing the value at the same width gives the string back. */
  lemma {:induction false} HexDigitsOfValue(s: string)
    requires AllHex(s)
    ensures HexDigits(HexValue(s), |s|) == s
    decreases |s|
  {
    if |s| > 0 {
      var prefix := s[..|s| - 1];
      assert AllHex(prefix) by {
        forall i | 0 <= i < |prefix| ensures IsHexDigit(prefix[i]) {
          assert prefix[i] == s[i];
        }
      }
      var n := HexValue(s);
      assert n / 16 == HexValue(prefix) && n % 16 == DigitValue(s[|s| - 1]);
      HexDigitsOfValue(prefix);
      DigitCharOfValue(s[|s| - 1]);
      assert s == prefix + [s[|s| - 1]];
    }
  }

  lemma UngroupGroup(h: string)
    requires |h| == 32
    ensures Ungroup(Group(h)) == h
  {
    var g := Group(h);
    assert forall i :: 0 <= i < 36 ==> g[i] == if i < 8 then h[i] else if i == 8 then '-'
      else if i < 13 then h[i - 1] else if i == 13 then '-'
      else if i < 18 then h[i - 2] else if i == 18 then '-'
      else if i < 23 then h[i - 3] else if i == 23 then '-' else h[i - 4];
    var u := Ungroup(g);
    assert forall i :: 0 <= i < 32 ==> u[i] == if i < 8 then g[i] else if i < 12 then g[i + 1]
      else if i < 16 then g[i + 2] else if i < 20 then g[i + 3] else g[i + 4];
    forall i | 0 <= i < 32 ensures u[i] == h[i] {
      if i < 8 {
      } else if i < 12 {
        assert u[i] == g[i + 1];
      } else if i < 16 {
        assert u[i] == g[i + 2];
      } else if i < 20 {
        assert u[i] == g[i + 3];
      } else {
        assert u[i] == g[i + 4];
      }
    }
  }

  lemma GroupUngroup(s: string)
    requires IsCanonical(s)
    ensures Group(Ungroup(s)) == s
  {
    var g := Group(Ungroup(s));
    assert forall i :: 0 <= i < 36 ==> g[i] == s[i] by {
      forall i | 0 <= i < 36 ensures g[i] == s[i] {
        if IsHyphenPosition(i) {
          assert s[i] == '-';
        }
      }
    }
  }

  /** The text a publish task receives names exactly the key it was given. */
  lemma {:induction false} ParseStr(u: Uuid)
    ensures Parse(Str(u)) == Some(u)
  {
    Pow16Of32();
    UngroupGroup(HexDigits(u, 32));
    HexValueOfDigits(u, 32);
  }

  /** A canonical string is the text of the key it parses to: `Str` is the only
      way to write a key, so two different keys never share a text. */
  lemma {:induction false} StrParse(s: string)
    requires IsCanonical(s)
    ensures Parse(s).Some? && Str(Parse(s).value) == s
  {
    var h := Ungroup(s);
    assert forall i :: 0 <= i < 32 ==> h[i] == if i < 8 then s[i] else if i < 12 then s[i + 1]
      else if i < 16 then s[i + 2] else if i < 20 then s[i + 3] else s[i + 4];
    HexDigitsOfValue(h);
    GroupUngroup(s);
  }

  lemma StrInjective(u: Uuid, v: Uuid)
    requires Str(u) == Str(v)
    ensures u == v
  {
    ParseStr(u);
    ParseStr(v);
  }
}
