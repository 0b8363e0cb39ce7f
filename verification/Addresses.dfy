/** Which texts are addresses, and of which number: forty hexadecimal characters behind an optional prefix. */
module Addresses {
  import opened Prelude
  import opened Hashing
  import opened Numerals
  import opened Issuer

  /**
   * The text is a forty-character hexadecimal numeral of x, bare or behind "0x",
   * "0X", or the two in that order, which is what trimming one after the other lets
   * through. A sign counts as one of the forty characters.
   */
  predicate Spells(addr: string, x: int) {
    || (|addr| == 40 && IsNumeral(16, addr, x))
    || (|addr| == 42 && (addr[..2] == "0x" || addr[..2] == "0X") && IsNumeral(16, addr[2..], x))
    || (|addr| == 44 && addr[..4] == "0x0X" && IsNumeral(16, addr[4..], x))
  }

  lemma {:induction false} NoPrefixInside(t: string, x: nat, k: nat)
    requires Writes(16, t, x) && k < |t|
    ensures t[k] in DIGITS || t[k] in CAPITALS
  {
    if k == |t| - 1 {
    } else {
      NoPrefixInside(t[..|t| - 1], x / 16, k);
    }
  }

  /** A numeral has nothing to trim. */
  lemma NumeralIsBare(t: string, x: int)
    requires |t| == 40 && IsNumeral(16, t, x)
    ensures !("0x" <= t) && !("0X" <= t)
  {
    if t[0] != '-' && t[0] != '+' {
      NoPrefixInside(t, x, 1);
    }
  }

  /** Trimming takes the prefix off, and leaves a bare numeral alone. */
  lemma TrimOne(prefix: string, t: string)
    ensures TrimPrefix(prefix + t, prefix) == t
    ensures !(prefix <= t) ==> TrimPrefix(t, prefix) == t
  {
  }

  /** What is left after both trimmings, if it has forty characters, is where Spells looks for it. */
  lemma TrimmedBoth(addr: string, x: int)
    requires |TrimPrefix(TrimPrefix(addr, "0x"), "0X")| == 40
    requires IsNumeral(16, TrimPrefix(TrimPrefix(addr, "0x"), "0X"), x)
    ensures Spells(addr, x)
  {
    var first := TrimPrefix(addr, "0x");
    var s := TrimPrefix(first, "0X");
    if "0x" <= addr {
      assert addr[2..] == first;
      if "0X" <= first {
        assert addr[4..] == s;
        assert addr[..4] == "0x0X";
      }
    }
  }

  lemma SpelledIsTrimmed(addr: string, x: int)
    requires Spells(addr, x)
    ensures var s := TrimPrefix(TrimPrefix(addr, "0x"), "0X");
            |s| == 40 && IsNumeral(16, s, x)
  {
    if |addr| == 40 {
      NumeralIsBare(addr, x);
    } else if |addr| == 42 {
      NumeralIsBare(addr[2..], x);
      assert addr == addr[..2] + addr[2..];
      TrimOne(addr[..2], addr[2..]);
      TrimOne("0X", addr[2..]);
    } else {
      assert addr == "0x" + ("0X" + addr[4..]);
      TrimOne("0x", "0X" + addr[4..]);
      TrimOne("0X", addr[4..]);
    }
  }

  /** A text is read as the address x exactly when it spells x. */
  lemma AddressIsExact(addr: string, x: int)
    ensures AddrToField(addr) == Ok(x) <==> Spells(addr, x)
  {
    var s := TrimPrefix(TrimPrefix(addr, "0x"), "0X");
    ParseIsExact(16, s, x);
    if |s| == 40 && IsNumeral(16, s, x) {
      TrimmedBoth(addr, x);
    }
    if Spells(addr, x) {
      SpelledIsTrimmed(addr, x);
    }
  }

  /** A numeral without a sign is one behind either prefix too. */
  lemma HexAddress(t: string, x: nat)
    requires |t| == 40 && Writes(16, t, x)
    ensures AddrToField(t) == AddrToField("0x" + t) == AddrToField("0X" + t) == Ok(x)
  {
    NoPrefixInside(t, x, 0);
    NumeralIsBare(t, x);
    ParseIsExact(16, t, x);
    TrimOne("0x", t);
    TrimOne("0X", t);
  }

  // ------------------------------------------------------------------- range

  /** 16^n. */
  function Pow16(n: nat): (r: nat)
    ensures r > 0
  {
    if n == 0 then 1 else 16 * Pow16(n - 1)
  }

  lemma {:induction false} WrittenIsBounded(t: string, x: nat)
    requires Writes(16, t, x)
    ensures x < Pow16(|t|)
  {
    if |t| == 0 {
    } else {
      WrittenIsBounded(t[..|t| - 1], x / 16);
    }
  }

  lemma Pow16Up(n: nat)
    ensures Pow16(n + 4) == 0x1_0000 * Pow16(n)
  {
    assert Pow16(n + 4) == 16 * Pow16(n + 3);
    assert Pow16(n + 3) == 16 * Pow16(n + 2);
    assert Pow16(n + 2) == 16 * Pow16(n + 1);
  }

  lemma Pow16FarUp(n: nat)
    ensures Pow16(n + 20) == 0x1_0000_0000_0000_0000_0000 * Pow16(n)
  {
    Pow16Up(n);
    Pow16Up(n + 4);
    Pow16Up(n + 8);
    Pow16Up(n + 12);
    Pow16Up(n + 16);
  }

  lemma AddressCount(n: nat)
    requires n == 40
    ensures Pow16(n) == 0x1_0000_0000_0000_0000_0000_0000_0000_0000_0000_0000
  {
    Pow16FarUp(n - 20);
    Pow16FarUp(n - 40);
  }

  /** What an address text spells is below 2^160, and a field element unless it is negative. */
  lemma AddressInField(addr: string, x: int)
    requires Spells(addr, x)
    ensures x < 0x1_0000_0000_0000_0000_0000_0000_0000_0000_0000_0000
    ensures InField(FIELD, x) <==> x >= 0
  {
    var t := if |addr| == 40 then addr else if |addr| == 42 then addr[2..] else addr[4..];
    AddressCount(|t|);
    if t[0] == '-' || t[0] == '+' {
      WrittenIsBounded(t[1..], if x < 0 then -x else x);
      assert Pow16(|t|) == 16 * Pow16(|t[1..]|);
    } else {
      WrittenIsBounded(t, x);
    }
  }

  /** x in n hexadecimal digits, lower-case. */
  function Padded(x: nat, n: nat): (t: string)
    ensures |t| == n
  {
    if n == 0 then "" else Padded(x / 16, n - 1) + [DIGITS[x % 16]]
  }

  lemma {:induction false} PaddedWrites(x: nat, n: nat)
    requires x < Pow16(n)
    ensures Writes(16, Padded(x, n), x)
  {
    if n == 0 {
    } else {
      PaddedWrites(x / 16, n - 1);
      assert Padded(x, n)[..n - 1] == Padded(x / 16, n - 1);
    }
  }

  /** Every number below 2^160 has an address text that is read as it. */
  lemma EveryAddressIsSpelled(x: nat)
    requires x < 0x1_0000_0000_0000_0000_0000_0000_0000_0000_0000_0000
    ensures AddrToField("0x" + Padded(x, 40)) == Ok(x) && Spells("0x" + Padded(x, 40), x)
  {
    AddressCount(|Padded(x, 40)|);
    PaddedWrites(x, |Padded(x, 40)|);
    HexAddress(Padded(x, 40), x);
    AddressIsExact("0x" + Padded(x, 40), x);
  }

  lemma {:induction false} ZerosWriteZero(zeros: string)
    requires forall k :: 0 <= k < |zeros| ==> zeros[k] == '0'
    ensures Writes(16, zeros, 0)
  {
    if |zeros| == 0 {
    } else {
      ZerosWriteZero(zeros[..|zeros| - 1]);
    }
  }

  lemma OneMoreWritten(t: string, x: nat, c: char, d: nat)
    requires Writes(16, t, x) && d < 16 && IsDigitOf(c, d)
    ensures Writes(16, t + [c], 16 * x + d)
  {
    var n := 16 * x + d;
    assert n / 16 == x && n % 16 == d;
    assert (t + [c])[..|t|] == t;
  }

  lemma TwoCapitals(zeros: string)
    requires Writes(16, zeros, 0)
    ensures Writes(16, zeros + ['A'] + ['A'], 170)
  {
    assert IsDigitOf('A', 10);
    OneMoreWritten(zeros, 0, 'A', 10);
    OneMoreWritten(zeros + ['A'], 10, 'A', 10);
  }

  /** The test suite's address, 38 zeros and two capitals. */
  lemma CapitalsAreRead(zeros: string)
    requires |zeros| == 38 && forall k :: 0 <= k < 38 ==> zeros[k] == '0'
    ensures AddrToField("0x" + (zeros + "AA")) == Ok(170)
  {
    ZerosWriteZero(zeros);
    TwoCapitals(zeros);
    assert zeros + ['A'] + ['A'] == zeros + "AA";
    HexAddress(zeros + "AA", 170);
  }
}
