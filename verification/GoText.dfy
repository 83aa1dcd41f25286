/** The string operations of Go's library that the keys in etcd are built and parsed with. */
module GoText {
  import opened Basics

  // ---------- split, join, trim, replace ----------

  function Split(s: string, sep: char): (parts: seq<string>)
    ensures parts != []
  {
    if s == [] then [[]]
    else
      var rest := Split(s[1..], sep);
      if s[0] == sep then [[]] + rest else [[s[0]] + rest[0]] + rest[1..]
  }

  function Join(parts: seq<string>, sep: char): string {
    if parts == [] then []
    else if |parts| == 1 then parts[0]
    else parts[0] + [sep] + Join(parts[1..], sep)
  }

  function TrimPrefix(s: string, prefix: string): string {
    if prefix <= s then s[|prefix|..] else s
  }

  function TrimLeft(s: string, c: char): string {
    if s != [] && s[0] == c then TrimLeft(s[1..], c) else s
  }

  function TrimSuffix(s: string, c: char): string {
    if s != [] && s[|s| - 1] == c then s[..|s| - 1] else s
  }

  function ReplaceAll(s: string, old_: char, new_: char): (r: string)
    ensures |r| == |s|
  {
    if s == [] then [] else [if s[0] == old_ then new_ else s[0]] + ReplaceAll(s[1..], old_, new_)
  }

  lemma {:induction false} SplitSingle(s: string, sep: char)
    requires sep !in s
    ensures Split(s, sep) == [s]
  {
    if s != [] {
      SplitSingle(s[1..], sep);
      assert s == [s[0]] + s[1..];
    }
  }

  /** The parts once a character is put in front of the text. */
  function InFront(c: char, parts: seq<string>, sep: char): seq<string>
    requires parts != []
  {
    if c == sep then [[]] + parts else [[c] + parts[0]] + parts[1..]
  }

  lemma SplitCons(c: char, s: string, sep: char)
    ensures Split([c] + s, sep) == InFront(c, Split(s, sep), sep)
  {
    assert ([c] + s)[1..] == s;
  }

  lemma InFrontOfBoth(c: char, a: seq<string>, b: seq<string>, sep: char)
    requires a != []
    ensures InFront(c, a + b, sep) == InFront(c, a, sep) + b
  {
    assert (a + b)[1..] == a[1..] + b;
  }

  /** Splitting at a separator distributes over it. */
  lemma {:induction false} SplitAt(a: string, b: string, sep: char)
    ensures Split(a + [sep] + b, sep) == Split(a, sep) + Split(b, sep)
  {
    if a == [] {
      assert a + [sep] + b == [sep] + b;
      SplitCons(sep, b, sep);
    } else {
      var c, tail := a[0], a[1..];
      SplitAt(tail, b, sep);
      SplitCons(c, tail + [sep] + b, sep);
      SplitCons(c, tail, sep);
      InFrontOfBoth(c, Split(tail, sep), Split(b, sep), sep);
      assert a + [sep] + b == [c] + (tail + [sep] + b) && a == [c] + tail;
    }
  }

  lemma {:induction false} JoinSplit(s: string, sep: char)
    ensures Join(Split(s, sep), sep) == s
  {
    if s != [] {
      JoinSplit(s[1..], sep);
      var rest := Split(s[1..], sep);
      if s[0] != sep {
        assert ([[s[0]] + rest[0]] + rest[1..])[1..] == rest[1..];
      } else {
        assert ([[]] + rest)[1..] == rest;
      }
      assert s == [s[0]] + s[1..];
    }
  }

  lemma {:induction false} SplitJoin(parts: seq<string>, sep: char)
    requires parts != [] && forall i :: 0 <= i < |parts| ==> sep !in parts[i]
    ensures Split(Join(parts, sep), sep) == parts
  {
    SplitSingle(parts[0], sep);
    if |parts| > 1 {
      SplitJoin(parts[1..], sep);
      SplitAt(parts[0], Join(parts[1..], sep), sep);
      assert parts == [parts[0]] + parts[1..];
    } else {
      assert parts == [parts[0]];
    }
  }

  lemma {:induction false} SplitParts(s: string, sep: char)
    ensures forall i :: 0 <= i < |Split(s, sep)| ==> sep !in Split(s, sep)[i]
  {
    if s != [] {
      SplitParts(s[1..], sep);
    }
  }

  lemma {:induction false} ReplaceBack(s: string, a: char, b: char)
    requires a != b
    ensures ReplaceAll(ReplaceAll(s, a, b), b, a) == s <==> b !in s
    ensures a !in ReplaceAll(s, a, b)
  {
    if s != [] {
      ReplaceBack(s[1..], a, b);
      var t := ReplaceAll(s, a, b);
      assert t[1..] == ReplaceAll(s[1..], a, b);
      assert s == [s[0]] + s[1..];
    }
  }

  lemma TrimLeftNone(s: string, c: char)
    requires s == [] || s[0] != c
    ensures TrimLeft([c] + s, c) == s
  {
    assert ([c] + s)[1..] == s;
  }

  /** A key below a prefix, stripped of the prefix and the slash. */
  lemma BelowPrefix(prefix: string, rest: string)
    requires rest == [] || rest[0] != '/'
    ensures TrimLeft(TrimPrefix(prefix + "/" + rest, prefix), '/') == rest
  {
    var key := prefix + "/" + rest;
    assert prefix <= key;
    assert key[|prefix|..] == "/" + rest;
    TrimLeftNone(rest, '/');
  }

  // ---------- decimal numbers ----------

  function Digit(d: nat): char
    requires d < 10
  {
    "0123456789"[d]
  }

  predicate IsDigit(c: char) {
    '0' <= c <= '9'
  }

  function DigitValue(c: char): (d: nat)
    requires IsDigit(c)
    ensures d < 10
  {
    c as nat - '0' as nat
  }

  function PrintNat(n: nat): (s: string)
    ensures s != []
  {
    if n < 10 then [Digit(n)] else PrintNat(n / 10) + [Digit(n % 10)]
  }

  /** A non-empty string of decimal digits, leading zeroes allowed. */
  function ParseNat(s: string): Option<nat> {
    if s == [] then None
    else
      var last := s[|s| - 1];
      if !IsDigit(last) then None
      else if |s| == 1 then Some(DigitValue(last))
      else
        match ParseNat(s[..|s| - 1])
        case None => None
        case Some(n) => Some(10 * n + DigitValue(last))
  }

  lemma DigitRoundTrip(d: nat)
    requires d < 10
    ensures IsDigit(Digit(d)) && DigitValue(Digit(d)) == d
  {
  }

  lemma {:induction false} ParsePrintedNat(n: nat)
    ensures ParseNat(PrintNat(n)) == Some(n)
    ensures forall i :: 0 <= i < |PrintNat(n)| ==> IsDigit(PrintNat(n)[i])
    ensures n > 0 ==> PrintNat(n)[0] != '0'
  {
    DigitRoundTrip(n % 10);
    if n >= 10 {
      ParsePrintedNat(n / 10);
      var s := PrintNat(n);
      assert s[..|s| - 1] == PrintNat(n / 10);
    }
  }

  lemma AppendDigit(n: nat, d: nat)
    requires n > 0 && d < 10
    ensures PrintNat(10 * n + d) == PrintNat(n) + [Digit(d)]
  {
    assert (10 * n + d) / 10 == n && (10 * n + d) % 10 == d;
  }

  lemma {:induction false} ParsedPositive(s: string)
    requires ParseNat(s).Some? && s[0] != '0'
    ensures ParseNat(s).value > 0
  {
    if |s| > 1 {
      ParsedPositive(s[..|s| - 1]);
    }
  }

  /** Without leading zeroes a number has one spelling. */
  lemma {:induction false} PrintParsedNat(s: string)
    requires ParseNat(s).Some? && (|s| == 1 || s[0] != '0')
    ensures PrintNat(ParseNat(s).value) == s
  {
    var init, last := s[..|s| - 1], s[|s| - 1];
    assert s == init + [last];
    assert Digit(DigitValue(last)) == last;
    if |s| > 1 {
      assert ParseNat(init).Some? && init[0] == s[0];
      PrintParsedNat(init);
      ParsedPositive(init);
      AppendDigit(ParseNat(init).value, DigitValue(last));
    }
  }
}
