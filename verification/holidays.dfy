/**
 * Parsing of a month's holiday string (index.js:35): the string is cut at every
 * comma, every non-digit character is removed from each piece, and what is left
 * is read as a decimal number.
 */
module HolidayParsing {

  predicate IsDigit(c: char) {
    '0' <= c <= '9'
  }

  predicate AllDigits(s: string) {
    forall i | 0 <= i < |s| :: IsDigit(s[i])
  }

  predicate NoDigits(s: string) {
    forall i | 0 <= i < |s| :: !IsDigit(s[i])
  }

  // ---------------------------------------------------------------------------
  // Cutting at commas, and its inverse

  /**
   * The pieces of `s` between commas (index.js:35), empty pieces included: the
   * empty string gives one empty token, and there is one more token than there
   * are commas.
   */
  function Split(s: string): (r: seq<string>)
    ensures |r| >= 1
    ensures forall i | 0 <= i < |r| :: ',' !in r[i]
  {
    if s == [] then [""]
    else
      var rest := Split(s[1..]);
      if s[0] == ',' then [""] + rest
      else [[s[0]] + rest[0]] + rest[1..]
  }

  /** The tokens glued back together with a comma between neighbours. */
  function Join(tokens: seq<string>): string
    requires |tokens| >= 1
  {
    if |tokens| == 1 then tokens[0] else tokens[0] + [','] + Join(tokens[1..])
  }

  /** Joining the pieces back with commas gives the original string. */
  lemma {:induction false} JoinSplit(s: string)
    ensures Join(Split(s)) == s
  {
    if s != [] {
      var rest := Split(s[1..]);
      JoinSplit(s[1..]);
      if s[0] == ',' {
        assert ([""] + rest)[1..] == rest;
      } else if |rest| == 1 {
        assert [[s[0]] + rest[0]] + rest[1..] == [[s[0]] + rest[0]];
      } else {
        var t := [[s[0]] + rest[0]] + rest[1..];
        assert t[0] == [s[0]] + rest[0] && t[1..] == rest[1..];
        assert ([s[0]] + rest[0]) + [','] + Join(rest[1..]) == [s[0]] + (rest[0] + [','] + Join(rest[1..]));
      }
    }
  }

  /** A comma-free piece is a single token. */
  lemma {:induction false} SplitCommaFree(t: string)
    requires ',' !in t
    ensures Split(t) == [t]
  {
    if t != [] {
      SplitCommaFree(t[1..]);
      assert [t[0]] + t[1..] == t;
    }
  }

  /** A comma-free prefix joins onto the first token. */
  lemma {:induction false} SplitPrefix(t: string, s: string)
    requires ',' !in t
    ensures Split(t + s) == [t + Split(s)[0]] + Split(s)[1..]
  {
    if t != [] {
      assert (t + s)[1..] == t[1..] + s;
      SplitPrefix(t[1..], s);
      assert [t[0]] + (t[1..] + Split(s)[0]) == t + Split(s)[0];
    } else {
      assert t + s == s;
      assert t + Split(s)[0] == Split(s)[0];
      assert [t + Split(s)[0]] + Split(s)[1..] == Split(s);
    }
  }

  /** Splitting comma-free tokens that were joined with commas gives the tokens back. */
  lemma {:induction false} SplitJoin(tokens: seq<string>)
    requires |tokens| >= 1
    requires forall i | 0 <= i < |tokens| :: ',' !in tokens[i]
    ensures Split(Join(tokens)) == tokens
  {
    if |tokens| == 1 {
      SplitCommaFree(tokens[0]);
    } else {
      var rest := Join(tokens[1..]);
      SplitJoin(tokens[1..]);
      assert tokens[0] + [','] + rest == tokens[0] + ([','] + rest);
      SplitPrefix(tokens[0], [','] + rest);
      assert ([','] + rest)[0] == ',' && ([','] + rest)[1..] == rest;
      assert Split([','] + rest) == [""] + tokens[1..];
      assert tokens[0] + "" == tokens[0];
      assert [tokens[0]] + tokens[1..] == tokens;
    }
  }

  /** Appending a comma and a comma-free token appends one token. */
  lemma {:induction false} SplitAppend(s: string, t: string)
    requires ',' !in t
    ensures Split(s + [','] + t) == Split(s) + [t]
  {
    var tokens := Split(s);
    JoinSplit(s);
    assert Join(tokens + [t]) == s + [','] + t by {
      JoinAppend(tokens, t);
    }
    SplitJoin(tokens + [t]);
  }

  lemma {:induction false} JoinAppend(tokens: seq<string>, t: string)
    requires |tokens| >= 1
    ensures Join(tokens + [t]) == Join(tokens) + [','] + t
  {
    if |tokens| > 1 {
      assert (tokens + [t])[1..] == tokens[1..] + [t];
      JoinAppend(tokens[1..], t);
    }
  }

  // ---------------------------------------------------------------------------
  // Removing non-digits, and reading the digits as a number

  /** Removes every character other than '0'..'9', keeping the digits in order (index.js:35). */
  function StripNonDigits(s: string): (r: string)
    ensures AllDigits(r)
    ensures |r| <= |s|
  {
    if s == [] then []
    else (if IsDigit(s[0]) then [s[0]] else []) + StripNonDigits(s[1..])
  }

  lemma {:induction false} StripConcat(a: string, b: string)
    ensures StripNonDigits(a + b) == StripNonDigits(a) + StripNonDigits(b)
  {
    if a != [] {
      assert (a + b)[0] == a[0];
      assert (a + b)[1..] == a[1..] + b;
      StripConcat(a[1..], b);
      var h := if IsDigit(a[0]) then [a[0]] else [];
      assert StripNonDigits(a + b) == h + (StripNonDigits(a[1..]) + StripNonDigits(b));
      assert h + (StripNonDigits(a[1..]) + StripNonDigits(b)) == (h + StripNonDigits(a[1..])) + StripNonDigits(b);
    } else {
      assert a + b == b;
    }
  }

  lemma {:induction false} StripKeepsDigits(s: string)
    requires AllDigits(s)
    ensures StripNonDigits(s) == s
  {
    if s != [] {
      StripKeepsDigits(s[1..]);
    }
  }

  function Pow10(k: nat): nat {
    if k == 0 then 1 else 10 * Pow10(k - 1)
  }

  function DigitValue(c: char): nat
    requires IsDigit(c)
  {
    (c as int) - ('0' as int)
  }

  /** The number a string of decimal digits denotes; the empty string reads as 0 (index.js:35). */
  function DecimalValue(ds: string): (n: nat)
    requires AllDigits(ds)
    ensures n < Pow10(|ds|)
  {
    if ds == [] then 0
    else DecimalValue(ds[..|ds| - 1]) * 10 + DigitValue(ds[|ds| - 1])
  }

  /** The canonical decimal spelling of `n`, without leading zeros. */
  function Decimal(n: nat): (s: string)
    ensures AllDigits(s) && |s| >= 1
  {
    if n < 10 then [('0' as int + n) as char]
    else Decimal(n / 10) + [('0' as int + n % 10) as char]
  }

  /** Reading a decimal spelling gives the number back. */
  lemma {:induction false} DecimalValueOfDecimal(n: nat)
    ensures DecimalValue(Decimal(n)) == n
  {
    if n >= 10 {
      var s := Decimal(n);
      assert s[..|s| - 1] == Decimal(n / 10);
      DecimalValueOfDecimal(n / 10);
    }
  }

  /** The holiday number a token stands for: its digits, read in decimal. */
  function TokenValue(token: string): nat {
    DecimalValue(StripNonDigits(token))
  }

  lemma {:induction false} StripNoDigits(s: string)
    requires NoDigits(s)
    ensures StripNonDigits(s) == []
  {
    if s != [] {
      StripNoDigits(s[1..]);
    }
  }

  /** A token without digits stands for 0. */
  lemma TokenWithoutDigits(token: string)
    requires NoDigits(token)
    ensures TokenValue(token) == 0
  {
    StripNoDigits(token);
  }

  /** Non-digit text around a day number, as in "25*" or "(7)", does not change it. */
  lemma TokenAroundDecimal(prefix: string, n: nat, suffix: string)
    requires NoDigits(prefix) && NoDigits(suffix)
    ensures TokenValue(prefix + Decimal(n) + suffix) == n
  {
    StripNoDigits(prefix);
    StripNoDigits(suffix);
    StripConcat(prefix + Decimal(n), suffix);
    StripConcat(prefix, Decimal(n));
    StripKeepsDigits(Decimal(n));
    assert StripNonDigits(prefix + Decimal(n) + suffix) == Decimal(n) by {
      assert [] + Decimal(n) + [] == Decimal(n);
    }
    DecimalValueOfDecimal(n);
  }

  /** The holiday numbers of a month: one per comma-separated token, in order (index.js:35). */
  function ParseHolidays(days: string): (hs: seq<int>)
  {
    var tokens := Split(days);
    seq(|tokens|, i requires 0 <= i < |tokens| => TokenValue(tokens[i]))
  }

  /** Joining two token lists joins their strings with a comma between them. */
  lemma {:induction false} JoinConcat(x: seq<string>, y: seq<string>)
    requires |x| >= 1 && |y| >= 1
    ensures Join(x + y) == Join(x) + [','] + Join(y)
  {
    if |x| == 1 {
      assert (x + y)[1..] == y;
    } else {
      assert (x + y)[1..] == x[1..] + y;
      JoinConcat(x[1..], y);
      assert x[0] + [','] + (Join(x[1..]) + [','] + Join(y))
          == (x[0] + [','] + Join(x[1..])) + [','] + Join(y);
    }
  }

  /** Splitting at one comma splits each side on its own. */
  lemma SplitConcat(a: string, b: string)
    ensures Split(a + [','] + b) == Split(a) + Split(b)
  {
    JoinSplit(a);
    JoinSplit(b);
    JoinConcat(Split(a), Split(b));
    SplitJoin(Split(a) + Split(b));
  }

  /** The holidays of two strings joined by a comma are those of each, in order. */
  lemma ParseConcat(a: string, b: string)
    ensures ParseHolidays(a + [','] + b) == ParseHolidays(a) + ParseHolidays(b)
  {
    SplitConcat(a, b);
  }

  /** A comma-free token without digits names exactly the holiday 0. */
  lemma ParseNoDigitToken(token: string)
    requires ',' !in token && NoDigits(token)
    ensures ParseHolidays(token) == [0]
  {
    SplitCommaFree(token);
    TokenWithoutDigits(token);
  }

  /** One more comma-separated token adds its number at the end. */
  lemma ParseAppend(days: string, token: string)
    requires ',' !in token
    ensures ParseHolidays(days + [','] + token) == ParseHolidays(days) + [TokenValue(token)]
  {
    SplitAppend(days, token);
  }

  lemma ExampleTokens()
    ensures Split("5,12,25рж") == ["5", "12", "25рж"]
  {
    var tokens := ["5", "12", "25рж"];
    assert Join(tokens[2..]) == "25рж";
    assert Join(tokens[1..]) == "12,25рж";
    assert Join(tokens) == "5,12,25рж";
    SplitJoin(tokens);
  }

  /** The worked example: "5,12,25рж" names the days 5, 12 and 25. */
  lemma ParseExample()
    ensures ParseHolidays("5,12,25рж") == [5, 12, 25]
  {
    ExampleTokens();
  }
}
