/** Content-addressed row ids of packages/shared/store. The hexadecimal of the whole hashed text
    stands for that of its digest: equal ids are equal texts, and an id is plain text itself. */
module Ids {
  import opened Text

  function Decimal(n: nat): (s: string)
    ensures |s| > 0
  {
    var digit := [('0' as int + n % 10) as char];
    if n < 10 then digit else Decimal(n / 10) + digit
  }

  /** strconv.Itoa. */
  function Itoa(n: int): (s: string)
    ensures |s| > 0
  {
    if n < 0 then "-" + Decimal(-n) else Decimal(n)
  }

  predicate NulFree(s: string) {
    Free('\0', s)
  }

  /** Every part with its NUL after it: what the digest reads. */
  function Terminated(parts: seq<string>): (s: string)
    ensures parts != [] ==> |s| > 0
  {
    if parts == [] then "" else parts[0] + ['\0'] + Terminated(parts[1..])
  }

  function HexDigit(d: nat): char
    requires d < 16
  {
    if d < 10 then ('0' as int + d) as char else ('a' as int + d - 10) as char
  }

  const HEX_WIDTH: nat := 6

  /** The last w hexadecimal digits of n. */
  function HexDigits(n: nat, w: nat): (s: string)
    ensures |s| == w
  {
    if w == 0 then "" else HexDigits(n / 16, w - 1) + [HexDigit(n % 16)]
  }

  /** hex.EncodeToString, a fixed number of digits to a character. */
  function Hex(s: string): (h: string)
    ensures |h| == HEX_WIDTH * |s|
  {
    if s == "" then "" else HexDigits(s[0] as int, HEX_WIDTH) + Hex(s[1..])
  }

  /** hash: each part terminated, digested, in hexadecimal. */
  function Hash(parts: seq<string>): (s: string)
    ensures parts != [] ==> |s| > 0
  {
    Hex(Terminated(parts))
  }

  function SymbolId(repoId: string, path: string, start: int, kind: string, name: string): string {
    Hash([repoId, path, Itoa(start), kind, name])
  }

  function EdgeId(repoId: string, from: string, path: string, offset: int, toName: string): string {
    Hash([repoId, from, path, Itoa(offset), toName])
  }

  lemma {:induction false} HexDigitsAreInjective(m: nat, n: nat, w: nat)
    requires HexDigits(m, w) == HexDigits(n, w) && m < Pow16(w) && n < Pow16(w)
    ensures m == n
  {
    if w > 0 {
      var a, b := HexDigits(m, w), HexDigits(n, w);
      assert a[w - 1] == HexDigit(m % 16) && b[w - 1] == HexDigit(n % 16);
      assert HexDigits(m / 16, w - 1) == a[..w - 1] == b[..w - 1] == HexDigits(n / 16, w - 1);
      HexDigitsAreInjective(m / 16, n / 16, w - 1);
    }
  }

  function Pow16(w: nat): nat {
    if w == 0 then 1 else 16 * Pow16(w - 1)
  }

  /** Hexadecimal loses nothing. */
  lemma {:induction false} HexIsInjective(s: string, t: string)
    requires Hex(s) == Hex(t)
    ensures s == t
  {
    assert |s| == |t|;
    if s != "" {
      var a, b := HexDigits(s[0] as int, HEX_WIDTH), HexDigits(t[0] as int, HEX_WIDTH);
      assert a == Hex(s)[..HEX_WIDTH] && b == Hex(t)[..HEX_WIDTH];
      assert Hex(s[1..]) == Hex(s)[HEX_WIDTH..] && Hex(t[1..]) == Hex(t)[HEX_WIDTH..];
      assert Pow16(6) == 16 * (16 * (16 * (16 * (16 * 16))));
      HexDigitsAreInjective(s[0] as int, t[0] as int, HEX_WIDTH);
      HexIsInjective(s[1..], t[1..]);
      assert s == [s[0]] + s[1..] && t == [t[0]] + t[1..];
    }
  }

  lemma {:induction false} HexDigitsAreNulFree(n: nat, w: nat)
    ensures NulFree(HexDigits(n, w))
  {
    if w > 0 {
      HexDigitsAreNulFree(n / 16, w - 1);
    }
  }

  lemma {:induction false} HexIsNulFree(s: string)
    ensures NulFree(Hex(s))
  {
    if s != "" {
      HexDigitsAreNulFree(s[0] as int, HEX_WIDTH);
      HexIsNulFree(s[1..]);
    }
  }

  lemma {:induction false} TerminatedIsInjective(a: seq<string>, b: seq<string>)
    requires (forall p :: p in a ==> NulFree(p)) && (forall p :: p in b ==> NulFree(p))
    requires Terminated(a) == Terminated(b)
    ensures a == b
  {
    if a != [] && b != [] {
      assert a[0] in a && b[0] in b;
      FirstPart('\0', a[0], b[0], Terminated(a[1..]), Terminated(b[1..]));
      TerminatedIsInjective(a[1..], b[1..]);
      assert a == [a[0]] + a[1..] && b == [b[0]] + b[1..];
    }
  }

  /** No NUL in any part means no two lists of parts hash alike, whatever their lengths; and no
      id has a NUL, so ids may be parts of other ids. */
  lemma HashIsInjective(a: seq<string>, b: seq<string>)
    requires (forall p :: p in a ==> NulFree(p)) && (forall p :: p in b ==> NulFree(p))
    ensures Hash(a) == Hash(b) ==> a == b
    ensures NulFree(Hash(a))
  {
    HexIsNulFree(Terminated(a));
    if Hash(a) == Hash(b) {
      HexIsInjective(Terminated(a), Terminated(b));
      TerminatedIsInjective(a, b);
    }
  }

  lemma {:induction false} DecimalIsDigits(n: nat)
    ensures forall i :: 0 <= i < |Decimal(n)| ==> '0' <= Decimal(n)[i] <= '9'
  {
    if n >= 10 {
      DecimalIsDigits(n / 10);
    }
  }

  lemma {:induction false} DecimalIsInjective(m: nat, n: nat)
    requires Decimal(m) == Decimal(n)
    ensures m == n
  {
    var s := Decimal(m);
    assert s[|s| - 1] as int == '0' as int + m % 10;
    assert Decimal(n)[|s| - 1] as int == '0' as int + n % 10;
    if m >= 10 && n >= 10 {
      assert Decimal(m / 10) == s[..|s| - 1] == Decimal(n / 10);
      DecimalIsInjective(m / 10, n / 10);
    }
  }

  lemma ItoaIsInjective(m: int, n: int)
    ensures NulFree(Itoa(m)) && (Itoa(m) == Itoa(n) ==> m == n)
  {
    DecimalIsDigits(if m < 0 then -m else m);
    DecimalIsDigits(if n < 0 then -n else n);
    if Itoa(m) == Itoa(n) {
      assert Itoa(m)[0] == Itoa(n)[0];
      if m < 0 {
        assert Decimal(-m) == Itoa(m)[1..] && Decimal(-n) == Itoa(n)[1..];
        DecimalIsInjective(-m, -n);
      } else {
        DecimalIsInjective(m, n);
      }
    }
  }

  /** A symbol row is one declaration: file, first line, kind and name. */
  lemma SymbolIdsIdentify(r: string, p: string, s: int, k: string, n: string,
                          r': string, p': string, s': int, k': string, n': string)
    requires NulFree(r) && NulFree(p) && NulFree(k) && NulFree(n)
    requires NulFree(r') && NulFree(p') && NulFree(k') && NulFree(n')
    ensures SymbolId(r, p, s, k, n) == SymbolId(r', p', s', k', n') <==> (r, p, s, k, n) == (r', p', s', k', n')
  {
    ItoaIsInjective(s, s');
    ItoaIsInjective(s', s);
    if SymbolId(r, p, s, k, n) == SymbolId(r', p', s', k', n') {
      var a, b := [r, p, Itoa(s), k, n], [r', p', Itoa(s'), k', n'];
      HashIsInjective(a, b);
      assert a[0] == b[0] && a[1] == b[1] && a[2] == b[2] && a[3] == b[3] && a[4] == b[4];
    }
  }

  /** An edge row is one call site of one symbol: two calls on one line differ in their offset. */
  lemma EdgeIdsIdentify(r: string, f: string, p: string, o: int, n: string,
                        r': string, f': string, p': string, o': int, n': string)
    requires NulFree(r) && NulFree(f) && NulFree(p) && NulFree(n)
    requires NulFree(r') && NulFree(f') && NulFree(p') && NulFree(n')
    ensures EdgeId(r, f, p, o, n) == EdgeId(r', f', p', o', n') <==> (r, f, p, o, n) == (r', f', p', o', n')
  {
    ItoaIsInjective(o, o');
    ItoaIsInjective(o', o);
    if EdgeId(r, f, p, o, n) == EdgeId(r', f', p', o', n') {
      var a, b := [r, f, p, Itoa(o), n], [r', f', p', Itoa(o'), n'];
      HashIsInjective(a, b);
      assert a[0] == b[0] && a[1] == b[1] && a[2] == b[2] && a[3] == b[3] && a[4] == b[4];
    }
  }
}
