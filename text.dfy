/** The string operations the tables rely on: Python's `str.strip()`,
    splitting on a separator, `str(n)` for a non-negative integer and the
    `"{:,}"` thousands-separated format. */
module Text {

  /** Python's `str.isspace()` on one character, by code point. */
  predicate IsSpace(c: char)
  {
    (9 <= c as int <= 13) || (28 <= c as int <= 32) || c as int == 0x85 || c as int == 0xA0
    || c as int == 0x1680 || (0x2000 <= c as int <= 0x200A) || c as int == 0x2028
    || c as int == 0x2029 || c as int == 0x202F || c as int == 0x205F || c as int == 0x3000
  }

  /** How many white-space characters `s` starts with (what `str.lstrip()` removes). */
  function LeadingSpace(s: string): (n: nat)
    ensures n <= |s|
    ensures forall k :: 0 <= k < n ==> IsSpace(s[k])
    ensures n < |s| ==> !IsSpace(s[n])
  {
    if |s| > 0 && IsSpace(s[0]) then 1 + LeadingSpace(s[1..]) else 0
  }

  /** `str.rstrip()`: the prefix of `s` left before its trailing white space. */
  function TrimEnd(s: string): (r: string)
    ensures |r| <= |s| && r == s[..|r|]
    ensures forall k :: |r| <= k < |s| ==> IsSpace(s[k])
    ensures |r| > 0 ==> !IsSpace(r[|r| - 1])
  {
    if |s| > 0 && IsSpace(s[|s| - 1]) then TrimEnd(s[..|s| - 1]) else s
  }

  /** `str.strip()`: the piece of `s` that starts after its leading white space and
      neither starts nor ends with white space, everything cut away being white space. */
  function Strip(s: string): (r: string)
    ensures LeadingSpace(s) + |r| <= |s|
    ensures r == s[LeadingSpace(s)..LeadingSpace(s) + |r|]
    ensures forall k :: LeadingSpace(s) + |r| <= k < |s| ==> IsSpace(s[k])
    ensures |r| > 0 ==> !IsSpace(r[0]) && !IsSpace(r[|r| - 1])
  {
    var i := LeadingSpace(s);
    var r := TrimEnd(s[i..]);
    assert r == s[i..i + |r|];
    r
  }

  /** Stripping a stripped string changes nothing. */
  lemma StripIdempotent(s: string)
    ensures Strip(Strip(s)) == Strip(s)
  {
    var r := Strip(s);
    NoSpaceAtEnds(r);
  }

  /** A string that neither starts nor ends with white space is its own strip. */
  lemma NoSpaceAtEnds(s: string)
    requires |s| > 0 ==> !IsSpace(s[0]) && !IsSpace(s[|s| - 1])
    ensures Strip(s) == s
  {
    assert LeadingSpace(s) == 0;
    assert s[0..] == s;
  }

  // ---------------------------------------------------------------------
  // Splitting on a separator
  // ---------------------------------------------------------------------

  /** The pieces of `s` between occurrences of `sep` (Python's `s.split(sep)`). */
  function Split(s: string, sep: char): (r: seq<string>)
    ensures |r| >= 1
    ensures forall i :: 0 <= i < |r| ==> sep !in r[i]
  {
    if |s| == 0 then [""]
    else
      var rest := Split(s[1..], sep);
      if s[0] == sep then [""] + rest
      else [[s[0]] + rest[0]] + rest[1..]
  }

  /** `sep.join(pieces)`. */
  function Join(pieces: seq<string>, sep: char): (r: string)
    requires |pieces| >= 1
    ensures |r| >= |pieces| - 1
  {
    if |pieces| == 1 then pieces[0] else pieces[0] + [sep] + Join(pieces[1..], sep)
  }

  /** Joining the pieces back with the separator gives the original string. */
  lemma {:induction false} JoinSplit(s: string, sep: char)
    ensures Join(Split(s, sep), sep) == s
  {
    if |s| > 0 {
      JoinSplit(s[1..], sep);
      var rest := Split(s[1..], sep);
      if s[0] != sep {
        if |rest| == 1 {
          assert Join(rest, sep) == rest[0];
        } else {
          assert ([[s[0]] + rest[0]] + rest[1..])[1..] == rest[1..];
        }
      }
    }
  }

  /** Splitting pieces without the separator, joined by it, gives the pieces back. */
  lemma {:induction false} SplitJoin(pieces: seq<string>, sep: char)
    requires |pieces| >= 1
    requires forall i :: 0 <= i < |pieces| ==> sep !in pieces[i]
    ensures Split(Join(pieces, sep), sep) == pieces
  {
    if |pieces| == 1 {
      NoSeparator(pieces[0], sep);
    } else {
      SplitJoin(pieces[1..], sep);
      SplitAround(pieces[0], Join(pieces[1..], sep), sep);
      assert pieces == [pieces[0]] + pieces[1..];
    }
  }

  lemma {:induction false} NoSeparator(s: string, sep: char)
    requires sep !in s
    ensures Split(s, sep) == [s]
  {
    if |s| > 0 {
      NoSeparator(s[1..], sep);
      assert s == [s[0]] + s[1..];
    }
  }

  lemma {:induction false} SplitAround(a: string, b: string, sep: char)
    requires sep !in a
    ensures Split(a + [sep] + b, sep) == [a] + Split(b, sep)
  {
    if |a| == 0 {
      assert a + [sep] + b == [sep] + b;
      assert ([sep] + b)[1..] == b;
    } else {
      assert (a + [sep] + b)[1..] == a[1..] + [sep] + b;
      SplitAround(a[1..], b, sep);
      assert a == [a[0]] + a[1..];
    }
  }

  // ---------------------------------------------------------------------
  // Decimal digits
  // ---------------------------------------------------------------------

  predicate IsDigit(c: char) { '0' <= c <= '9' }

  predicate AllDigits(s: string) { forall i :: 0 <= i < |s| ==> IsDigit(s[i]) }

  function DigitChar(d: nat): (c: char)
    requires d < 10
    ensures IsDigit(c) && c as int - '0' as int == d
  {
    ('0' as int + d) as char
  }

  /** The number a string of decimal digits spells. */
  function DigitsValue(s: string): nat
    requires AllDigits(s)
  {
    if |s| == 0 then 0
    else DigitsValue(s[..|s| - 1]) * 10 + (s[|s| - 1] as int - '0' as int)
  }

  /** `str(n)` for `n >= 0`: decimal digits, no leading zero. */
  function Decimal(n: nat): (r: string)
    ensures |r| >= 1 && AllDigits(r)
    ensures |r| > 1 ==> r[0] != '0'
    ensures n < 10 <==> |r| == 1
  {
    if n < 10 then [DigitChar(n)] else Decimal(n / 10) + [DigitChar(n % 10)]
  }

  /** Reading back the decimal digits of `n` gives `n`. */
  lemma {:induction false} DecimalValue(n: nat)
    ensures DigitsValue(Decimal(n)) == n
  {
    if n >= 10 {
      DecimalValue(n / 10);
      var r := Decimal(n);
      assert r[..|r| - 1] == Decimal(n / 10);
    }
  }

  /** The decimal string of a number of at least three digits ends in its last three digits. */
  lemma DecimalThousands(n: nat)
    requires n >= 1000
    ensures Decimal(n) == Decimal(n / 1000) + Pad3(n % 1000)
  {
    LastThreeDigits(n);
    assert Decimal(n) == Decimal(n / 10) + [DigitChar(n % 10)];
    assert Decimal(n / 10) == Decimal(n / 100) + [DigitChar(n / 10 % 10)];
    assert Decimal(n / 100) == Decimal(n / 1000) + [DigitChar(n / 100 % 10)];
  }

  /** The last three digits of `n`, read from `n` and from `n % 1000`. */
  lemma LastThreeDigits(n: nat)
    ensures n / 10 / 10 == n / 100 && n / 100 / 10 == n / 1000
    ensures n / 100 % 10 == (n % 1000) / 100
    ensures n / 10 % 10 == (n % 1000) / 10 % 10
    ensures n % 10 == (n % 1000) % 10
  {
    var q, m := n / 1000, n % 1000;
    assert n == 1000 * q + m;
    assert n / 10 == 100 * q + m / 10;
    assert n / 100 == 10 * q + m / 100;
  }

  /** Three digits, zero padded: `"{:03d}"`. */
  function Pad3(m: nat): (r: string)
    requires m < 1000
    ensures |r| == 3 && AllDigits(r)
  {
    [DigitChar(m / 100), DigitChar(m / 10 % 10), DigitChar(m % 10)]
  }

  /** `"{:,}".format(n)` for `n >= 0`: the decimal digits with a comma before every
      group of three counted from the right. */
  function Thousands(n: nat): (r: string)
    ensures |r| >= 1
    ensures forall i :: 0 <= i < |r| ==> (r[i] == ',' <==> (|r| - i) % 4 == 0)
    ensures forall i :: 0 <= i < |r| && r[i] != ',' ==> IsDigit(r[i])
    ensures r[0] != ','
  {
    if n < 1000 then
      ShortDecimal(n);
      Decimal(n)
    else
      var head := Thousands(n / 1000);
      CommaGroup(head, Pad3(n % 1000));
      head + [','] + Pad3(n % 1000)
  }

  lemma ShortDecimal(n: nat)
    requires n < 1000
    ensures |Decimal(n)| <= 3
  {
    if n >= 10 {
      assert |Decimal(n / 10)| <= 2 by {
        if n / 10 >= 10 {
          assert |Decimal(n / 100)| == 1;
        }
      }
    }
  }

  /** Appending a comma and a group of three digits keeps every comma four places
      apart from the right. */
  lemma CommaGroup(head: string, group: string)
    requires |head| >= 1 && head[0] != ','
    requires forall i :: 0 <= i < |head| ==> (head[i] == ',' <==> (|head| - i) % 4 == 0)
    requires forall i :: 0 <= i < |head| && head[i] != ',' ==> IsDigit(head[i])
    requires |group| == 3 && AllDigits(group)
    ensures var r := head + [','] + group;
      (forall i :: 0 <= i < |r| ==> (r[i] == ',' <==> (|r| - i) % 4 == 0))
      && (forall i :: 0 <= i < |r| && r[i] != ',' ==> IsDigit(r[i]))
  {
    var r := head + [','] + group;
    forall i | 0 <= i < |r| ensures r[i] == ',' <==> (|r| - i) % 4 == 0 {
      if i < |head| {
        assert r[i] == head[i];
        assert (|r| - i) % 4 == (|head| - i) % 4;
      } else if i > |head| {
        assert r[i] == group[i - |head| - 1];
      }
    }
  }

  /** The string with its commas removed. */
  function DropCommas(s: string): (r: string)
    ensures |r| <= |s| && ',' !in r
  {
    if |s| == 0 then []
    else (if s[0] == ',' then [] else [s[0]]) + DropCommas(s[1..])
  }

  lemma {:induction false} DropCommasAppend(a: string, b: string)
    ensures DropCommas(a + b) == DropCommas(a) + DropCommas(b)
  {
    if |a| == 0 {
      assert a + b == b;
    } else {
      assert (a + b)[0] == a[0] && (a + b)[1..] == a[1..] + b;
      DropCommasAppend(a[1..], b);
      var head := if a[0] == ',' then [] else [a[0]];
      assert DropCommas(a + b) == head + (DropCommas(a[1..]) + DropCommas(b));
      assert head + (DropCommas(a[1..]) + DropCommas(b)) == (head + DropCommas(a[1..])) + DropCommas(b);
    }
  }

  lemma {:induction false} DropCommasOfDigits(s: string)
    requires AllDigits(s)
    ensures DropCommas(s) == s
  {
    if |s| > 0 {
      DropCommasOfDigits(s[1..]);
    }
  }

  /** Removing the thousands separators gives back `str(n)`. */
  lemma {:induction false} DropCommasThousands(n: nat)
    ensures DropCommas(Thousands(n)) == Decimal(n)
  {
    if n < 1000 {
      DropCommasOfDigits(Decimal(n));
    } else {
      DropCommasThousands(n / 1000);
      var head := Thousands(n / 1000);
      DropCommasAppend(head + [','], Pad3(n % 1000));
      DropCommasAppend(head, [',']);
      DropCommasOfDigits(Pad3(n % 1000));
      DecimalThousands(n);
    }
  }

  /** The formatted count reads back as the count. */
  lemma ThousandsRoundTrip(n: nat)
    ensures AllDigits(DropCommas(Thousands(n)))
    ensures DigitsValue(DropCommas(Thousands(n))) == n
  {
    DropCommasThousands(n);
    DecimalValue(n);
  }
}
