/** The threads and locks of the wait-for graph and the keys they are stored under. */
module Keys {

  datatype Entity = Thread(threadId: nat, lwpid: int) | Lock(addr: nat, resource: string) {
    /** `"Thread 0x{:012x}"` and `"Lock 0x{:012x}"`. */
    function Key(): string {
      match this
      case Thread(id, _) => "Thread 0x" + Pad(Hex(id), 12)
      case Lock(addr, _) => "Lock 0x" + Pad(Hex(addr), 12)
    }

    /** The equality the source defines: kind and number, not the descriptive field. */
    predicate Same(other: Entity) {
      match this
      case Thread(id, _) => other.Thread? && other.threadId == id
      case Lock(addr, _) => other.Lock? && other.addr == addr
    }
  }

  const HEX_DIGITS := "0123456789abcdef"

  function Hex(n: nat): string {
    if n < 16 then [HEX_DIGITS[n]] else Hex(n / 16) + [HEX_DIGITS[n % 16]]
  }

  /** Zeros in front up to the width. */
  function Pad(s: string, width: nat): string
    decreases width - |s|
  {
    if |s| >= width then s else Pad("0" + s, width)
  }

  function DigitValue(c: char): nat {
    if '0' <= c <= '9' then c as nat - '0' as nat
    else if 'a' <= c <= 'f' then c as nat - 'a' as nat + 10
    else 0
  }

  function Value(s: string): nat {
    if s == [] then 0 else 16 * Value(s[..|s| - 1]) + DigitValue(s[|s| - 1])
  }

  lemma DigitRoundTrip(d: nat)
    requires d < 16
    ensures DigitValue(HEX_DIGITS[d]) == d
  {
    if d < 8 {
      assert d == 0 || d == 1 || d == 2 || d == 3 || d == 4 || d == 5 || d == 6 || d == 7;
    } else {
      assert d == 8 || d == 9 || d == 10 || d == 11 || d == 12 || d == 13 || d == 14 || d == 15;
    }
  }

  lemma {:induction false} HexRoundTrip(n: nat)
    ensures Value(Hex(n)) == n
  {
    DigitRoundTrip(n % 16);
    if n < 16 {
      assert Hex(n)[..0] == [];
    } else {
      HexRoundTrip(n / 16);
      assert Hex(n)[..|Hex(n)| - 1] == Hex(n / 16);
    }
  }

  lemma {:induction false} ZeroValue(s: string)
    ensures Value("0" + s) == Value(s)
  {
    if s == [] {
      assert ("0" + s)[..0] == [];
    } else {
      var front := s[..|s| - 1];
      ZeroValue(front);
      assert ("0" + s)[..|s|] == "0" + front;
    }
  }

  lemma {:induction false} PadValue(s: string, width: nat)
    ensures Value(Pad(s, width)) == Value(s)
    decreases width - |s|
  {
    if |s| < width {
      PadValue("0" + s, width);
      ZeroValue(s);
    }
  }

  lemma NumberOfKey(n: nat, prefix: string)
    ensures Value((prefix + Pad(Hex(n), 12))[|prefix|..]) == n
  {
    assert (prefix + Pad(Hex(n), 12))[|prefix|..] == Pad(Hex(n), 12);
    PadValue(Hex(n), 12);
    HexRoundTrip(n);
  }

  /** Hexadecimal digits that stand for `n`, twelve of them, or more without leading zeros. */
  predicate IsNumeral(s: string, n: nat) {
    |s| >= 12 && AllHexDigits(s) && Value(s) == n && (|s| > 12 ==> s[0] != '0')
  }

  predicate AllHexDigits(s: string) {
    forall k :: 0 <= k < |s| ==> '0' <= s[k] <= '9' || 'a' <= s[k] <= 'f'
  }

  lemma HexDigit(d: nat)
    requires d < 16
    ensures '0' <= HEX_DIGITS[d] <= '9' || 'a' <= HEX_DIGITS[d] <= 'f'
    ensures HEX_DIGITS[d] == '0' <==> d == 0
  {
    DigitRoundTrip(d);
    if d < 8 {
      assert d == 0 || d == 1 || d == 2 || d == 3 || d == 4 || d == 5 || d == 6 || d == 7;
    } else {
      assert d == 8 || d == 9 || d == 10 || d == 11 || d == 12 || d == 13 || d == 14 || d == 15;
    }
  }

  lemma {:induction false} HexForm(n: nat)
    ensures Hex(n) != [] && AllHexDigits(Hex(n)) && (n > 0 ==> Hex(n)[0] != '0')
  {
    HexDigit(n % 16);
    if n >= 16 { HexForm(n / 16); }
  }

  lemma {:induction false} PadForm(s: string, width: nat)
    requires AllHexDigits(s)
    ensures AllHexDigits(Pad(s, width)) && |Pad(s, width)| == if |s| >= width then |s| else width
    ensures |s| >= width ==> Pad(s, width) == s
    decreases width - |s|
  {
    if |s| < width { PadForm("0" + s, width); }
  }

  /** A key is the kind and the number in hexadecimal, padded to twelve digits. */
  lemma KeyForm(e: Entity) returns (numeral: string)
    ensures e.Key() == (if e.Thread? then "Thread 0x" else "Lock 0x") + numeral
    ensures IsNumeral(numeral, if e.Thread? then e.threadId else e.addr)
  {
    var n := if e.Thread? then e.threadId else e.addr;
    numeral := Pad(Hex(n), 12);
    HexForm(n);
    PadForm(Hex(n), 12);
    PadValue(Hex(n), 12);
    HexRoundTrip(n);
  }

  lemma KeysDiffer(a: Entity, b: Entity)
    requires a.Thread? != b.Thread?
    ensures a.Key() != b.Key()
  {
    assert a.Key()[0] == if a.Thread? then 'T' else 'L';
    assert b.Key()[0] == if b.Thread? then 'T' else 'L';
  }

  /** Two entities share a key exactly when they are equal as the source compares them. */
  lemma KeyIffSame(a: Entity, b: Entity)
    ensures a.Key() == b.Key() <==> a.Same(b)
  {
    if a.Thread? != b.Thread? {
      KeysDiffer(a, b);
    } else {
      var prefix := if a.Thread? then "Thread 0x" else "Lock 0x";
      NumberOfKey(if a.Thread? then a.threadId else a.addr, prefix);
      NumberOfKey(if b.Thread? then b.threadId else b.addr, prefix);
    }
  }
}
