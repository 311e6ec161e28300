/**
 * The pieces of the Kotlin/JVM standard library that the two screens rely on,
 * with the semantics of the JVM implementation: `indexOf`, `substringAfter`,
 * `substringBefore`, `split`, `joinToString`, `String.toLong` and `Long.toInt`.
 */
module KotlinText {

  datatype Option<+T> = None | Some(value: T)

  const MIN_LONG: int := -0x8000_0000_0000_0000
  const MAX_LONG: int := 0x7FFF_FFFF_FFFF_FFFF
  const MIN_INT: int := -0x8000_0000
  const MAX_INT: int := 0x7FFF_FFFF

  /** `d` occurs in `s` starting at position `i`. */
  predicate OccursAt(s: string, d: string, i: nat)
  {
    i + |d| <= |s| && s[i..i + |d|] == d
  }

  predicate Contains(s: string, d: string)
  {
    exists i: nat :: i <= |s| && OccursAt(s, d, i)
  }

  /** `String.indexOf(d)`: the first position at which `d` occurs, or none. */
  function IndexOf(s: string, d: string): (r: Option<nat>)
    ensures r.Some? ==> OccursAt(s, d, r.value)
    ensures r.Some? ==> forall j: nat :: j < r.value ==> !OccursAt(s, d, j)
    ensures r.None? ==> forall j: nat :: j <= |s| ==> !OccursAt(s, d, j)
    decreases |s|
  {
    if OccursAt(s, d, 0) then Some(0)
    else if |s| == 0 then None
    else
      var rest := IndexOf(s[1..], d);
      assert forall j: nat :: 1 <= j <= |s| ==> (OccursAt(s, d, j) <==> OccursAt(s[1..], d, j - 1)) by {
        forall j: nat | 1 <= j <= |s| {
          OccursAtShift(s, d, j);
        }
      }
      match rest
      case None => None
      case Some(k) => Some(k + 1)
  }

  lemma OccursAtShift(s: string, d: string, j: nat)
    requires 1 <= j <= |s|
    ensures OccursAt(s, d, j) <==> OccursAt(s[1..], d, j - 1)
  {
    if j + |d| <= |s| {
      var inS, inTail := s[j..j + |d|], s[1..][j - 1..j - 1 + |d|];
      forall k | 0 <= k < |d| ensures inS[k] == inTail[k] {
      }
      assert inS == inTail;
    }
  }

  /** Any occurrence with no earlier one is the one `IndexOf` finds. */
  lemma IndexOfIsFirst(s: string, d: string, i: nat)
    requires OccursAt(s, d, i)
    requires forall j: nat :: j < i ==> !OccursAt(s, d, j)
    ensures IndexOf(s, d) == Some(i)
  {
  }

  lemma ContainsIffIndexOf(s: string, d: string)
    ensures Contains(s, d) <==> IndexOf(s, d).Some?
  {
    if IndexOf(s, d).Some? {
      assert OccursAt(s, d, IndexOf(s, d).value);
    }
  }

  /** A one-character delimiter occurs exactly where that character stands. */
  lemma OccursAtChar(s: string, c: char, j: nat)
    ensures OccursAt(s, [c], j) <==> j < |s| && s[j] == c
  {
    if j < |s| {
      assert s[j..j + 1] == [s[j]];
    }
  }

  /** In `x + [c] + y`, with `c` absent from `x`, the first `c` is the one after `x`. */
  lemma IndexOfCharAfter(x: string, c: char, y: string)
    requires c !in x
    ensures IndexOf(x + [c] + y, [c]) == Some(|x|)
  {
    var s := x + [c] + y;
    OccursAtChar(s, c, |x|);
    forall j: nat | j < |x| ensures !OccursAt(s, [c], j) {
      OccursAtChar(s, c, j);
      assert s[j] == x[j];
    }
    IndexOfIsFirst(s, [c], |x|);
  }

  /** A one-character delimiter absent from `s` is not found. */
  lemma IndexOfAbsentChar(s: string, c: char)
    requires c !in s
    ensures IndexOf(s, [c]) == None
  {
    var r := IndexOf(s, [c]);
    if r.Some? {
      OccursAtChar(s, c, r.value);
    }
  }

  /** `substringAfter(d)`: the text after the first `d`, the whole text when `d` is missing. */
  function SubstringAfter(s: string, d: string): (r: string)
    ensures IndexOf(s, d).Some? ==> s == s[..IndexOf(s, d).value] + d + r
    ensures IndexOf(s, d).None? ==> r == s
  {
    match IndexOf(s, d)
    case None => s
    case Some(i) =>
      assert s == s[..i] + s[i..i + |d|] + s[i + |d|..];
      s[i + |d|..]
  }

  /** `substringBefore(d)`: the text before the first `d`, the whole text when `d` is missing. */
  function SubstringBefore(s: string, d: string): (r: string)
    ensures IndexOf(s, d).Some? ==> |r| + |d| <= |s| && s == r + d + s[|r| + |d|..]
    ensures IndexOf(s, d).Some? ==> forall j: nat :: j < |r| ==> !OccursAt(s, d, j)
    ensures IndexOf(s, d).None? ==> r == s
  {
    match IndexOf(s, d)
    case None => s
    case Some(i) =>
      assert s == s[..i] + s[i..i + |d|] + s[i + |d|..];
      s[..i]
  }

  /** `split(",")`: the pieces between commas, empty pieces and a trailing empty piece included. */
  function Split(s: string): (r: seq<string>)
    ensures |r| >= 1
    ensures forall k :: 0 <= k < |r| ==> ',' !in r[k]
    decreases |s|
  {
    match IndexOf(s, [','])
    case None =>
      assert ',' !in s by {
        if ',' in s {
          var j :| 0 <= j < |s| && s[j] == ',';
          OccursAtChar(s, ',', j);
        }
      }
      [s]
    case Some(i) =>
      assert ',' !in s[..i] by {
        forall j | 0 <= j < i ensures s[j] != ',' {
          OccursAtChar(s, ',', j);
        }
      }
      [s[..i]] + Split(s[i + 1..])
  }

  /** `joinToString(",")`. */
  function Join(xs: seq<string>): (r: string)
    decreases |xs|
  {
    if |xs| == 0 then ""
    else if |xs| == 1 then xs[0]
    else xs[0] + "," + Join(xs[1..])
  }

  /** Joining the pieces of a split gives back the text. */
  lemma {:induction false} JoinSplit(s: string)
    ensures Join(Split(s)) == s
    decreases |s|
  {
    match IndexOf(s, [','])
    case None =>
      assert Split(s) == [s];
    case Some(i) =>
      FirstCommaSplitsText(s, i);
      var rest := Split(s[i + 1..]);
      assert Split(s) == [s[..i]] + rest;
      JoinSplit(s[i + 1..]);
      JoinCons(s[..i], rest);
  }

  lemma JoinCons(head: string, rest: seq<string>)
    requires |rest| >= 1
    ensures Join([head] + rest) == head + "," + Join(rest)
  {
    assert ([head] + rest)[1..] == rest;
  }

  /** Splitting a join of comma-free pieces gives back the pieces, empty ones included. */
  lemma {:induction false} SplitJoin(xs: seq<string>)
    requires |xs| >= 1
    requires forall k :: 0 <= k < |xs| ==> ',' !in xs[k]
    ensures Split(Join(xs)) == xs
    decreases |xs|
  {
    if |xs| == 1 {
      IndexOfAbsentChar(xs[0], ',');
    } else {
      var tail := Join(xs[1..]);
      IndexOfCharAfter(xs[0], ',', tail);
      assert Join(xs) == xs[0] + [','] + tail;
      assert (xs[0] + [','] + tail)[..|xs[0]|] == xs[0];
      assert (xs[0] + [','] + tail)[|xs[0]| + 1..] == tail;
      SplitJoin(xs[1..]);
    }
  }

  /** Comma-free text is a single piece. */
  lemma SplitCommaFree(p: string)
    requires ',' !in p
    ensures Split(p) == [p]
  {
    IndexOfAbsentChar(p, ',');
  }

  /** The first piece of `p + "," + q`, for comma-free `p`, is `p`. */
  lemma SplitAtFirstComma(p: string, q: string)
    requires ',' !in p
    ensures Split(p + "," + q) == [p] + Split(q)
  {
    var s := p + "," + q;
    IndexOfCharAfter(p, ',', q);
    assert s == p + [','] + q;
    assert s[..|p|] == p && s[|p| + 1..] == q;
  }

  /** The pieces of `x + "," + y` are those of `x` followed by those of `y`. */
  lemma {:induction false} SplitAtComma(x: string, y: string)
    ensures Split(x + "," + y) == Split(x) + Split(y)
    decreases |x|
  {
    var found := IndexOf(x, [',']);
    if found.None? {
      CommaFreeWhenNotFound(x);
      SplitCommaFree(x);
      SplitAtFirstComma(x, y);
    } else {
      var i := found.value;
      var head, rest := x[..i], x[i + 1..];
      FirstCommaSplitsText(x, i);
      calc {
        Split(x + "," + y);
        { assert x + "," + y == head + "," + (rest + "," + y); }
        Split(head + "," + (rest + "," + y));
        { SplitAtFirstComma(head, rest + "," + y); }
        [head] + Split(rest + "," + y);
        { SplitAtComma(rest, y); }
        [head] + (Split(rest) + Split(y));
        ([head] + Split(rest)) + Split(y);
        { SplitAtFirstComma(head, rest); }
        Split(x) + Split(y);
      }
    }
  }

  /** The first comma cuts the text into a comma-free head and the rest. */
  lemma {:induction false} FirstCommaSplitsText(x: string, i: nat)
    requires IndexOf(x, [',']) == Some(i)
    ensures i < |x| && ',' !in x[..i] && x == x[..i] + "," + x[i + 1..]
  {
    OccursAtChar(x, ',', i);
    NoCommaBeforeFirst(x, i);
    CutAtComma(x, i);
  }

  lemma NoCommaBeforeFirst(x: string, i: nat)
    requires IndexOf(x, [',']) == Some(i)
    ensures ',' !in x[..i]
  {
    var head := x[..i];
    forall j | 0 <= j < i ensures head[j] != ',' {
      OccursAtChar(x, ',', j);
    }
  }

  lemma CutAtComma(x: string, i: nat)
    requires i < |x| && x[i] == ','
    ensures x == x[..i] + "," + x[i + 1..]
  {
    assert x == x[..i] + [x[i]] + x[i + 1..];
  }

  lemma CommaFreeWhenNotFound(x: string)
    requires IndexOf(x, [',']).None?
    ensures ',' !in x
  {
    forall j | 0 <= j < |x| ensures x[j] != ',' {
      OccursAtChar(x, ',', j);
    }
  }

  // ---------------------------------------------------------------------------
  // String.toLong (java.lang.Long.parseLong, radix 10)

  predicate IsDigit(c: char)
  {
    '0' <= c <= '9'
  }

  predicate AllDigits(s: string)
  {
    forall k :: 0 <= k < |s| ==> IsDigit(s[k])
  }

  function DigitValue(c: char): nat
    requires IsDigit(c)
  {
    (c as int) - ('0' as int)
  }

  function DigitChar(d: nat): (c: char)
    requires d < 10
    ensures IsDigit(c) && DigitValue(c) == d
  {
    ('0' as int + d) as char
  }

  /** The number a string of decimal digits denotes, most significant first. */
  function DigitsValue(s: string): nat
    requires AllDigits(s)
    decreases |s|
  {
    if |s| == 0 then 0
    else DigitsValue(s[..|s| - 1]) * 10 + DigitValue(s[|s| - 1])
  }

  /**
   * `String.toLong()`: an optional `+` or `-` followed by at least one digit,
   * whose value fits in a signed 64-bit integer; anything else is a
   * `NumberFormatException`, modelled as `None`.
   */
  function ParseLong(s: string): (r: Option<int>)
    ensures r.Some? ==> MIN_LONG <= r.value <= MAX_LONG
    ensures r.Some? ==> |s| >= 1 && (IsDigit(s[0]) || s[0] == '+' || s[0] == '-')
    ensures r.Some? ==> AllDigits(s[1..]) && (s[0] == '+' || s[0] == '-' ==> |s| >= 2)
    ensures r.Some? && s[0] == '-' ==> r.value <= 0
    ensures r.Some? && s[0] != '-' ==> r.value >= 0
  {
    if |s| == 0 then None
    else
      var signed := s[0] == '-' || s[0] == '+';
      var digits := if signed then s[1..] else s;
      if |digits| == 0 || !AllDigits(digits) then None
      else
        var magnitude: int := DigitsValue(digits);
        var v: int := if s[0] == '-' then -magnitude else magnitude;
        if MIN_LONG <= v <= MAX_LONG then Some(v) else None
  }

  /**
   * Every optional sign followed by one or more digits is accepted exactly when
   * its signed value fits in 64 bits, leading zeros, `+` and `-0` included.
   */
  lemma ParseLongSignedDigits(sign: string, d: string)
    requires sign == "" || sign == "+" || sign == "-"
    requires |d| >= 1 && AllDigits(d)
    ensures var v := if sign == "-" then -(DigitsValue(d) as int) else DigitsValue(d) as int;
            ParseLong(sign + d) == if MIN_LONG <= v <= MAX_LONG then Some(v) else None
  {
    var magnitude: int := DigitsValue(d);
    if sign == "" {
      assert sign + d == d;
      assert IsDigit(d[0]);
      assert ParseLong(d) == if magnitude <= MAX_LONG then Some(magnitude) else None;
    } else {
      SignedDigits(sign[0], d);
    }
  }

  lemma SignedDigits(c: char, d: string)
    requires c == '+' || c == '-'
    requires |d| >= 1 && AllDigits(d)
    ensures var v := if c == '-' then -(DigitsValue(d) as int) else DigitsValue(d) as int;
            ParseLong([c] + d) == if MIN_LONG <= v <= MAX_LONG then Some(v) else None
  {
    var s := [c] + d;
    assert s[0] == c && s[1..] == d;
    var magnitude: int := DigitsValue(d);
    if c == '-' {
      assert ParseLong(s) == if MIN_LONG <= -magnitude then Some(-magnitude) else None;
    } else {
      assert ParseLong(s) == if magnitude <= MAX_LONG then Some(magnitude) else None;
    }
  }

  /** The decimal digits of `n`, as `Long.toString` writes them (no leading zeros). */
  function DecimalDigits(n: nat): (r: string)
    ensures |r| >= 1 && AllDigits(r)
    decreases n
  {
    if n < 10 then [DigitChar(n)] else DecimalDigits(n / 10) + [DigitChar(n % 10)]
  }

  /** `Long.toString`: an optional minus sign and the decimal digits. */
  function LongText(n: int): (r: string)
  {
    if n < 0 then "-" + DecimalDigits(-n) else DecimalDigits(n)
  }

  lemma {:induction false} DecimalDigitsValue(n: nat)
    ensures DigitsValue(DecimalDigits(n)) == n
    decreases n
  {
    if n >= 10 {
      var s := DecimalDigits(n);
      assert s[..|s| - 1] == DecimalDigits(n / 10);
      DecimalDigitsValue(n / 10);
    }
  }

  /** `toLong` reads back exactly the number `toString` wrote. */
  lemma ParseLongText(n: int)
    requires MIN_LONG <= n <= MAX_LONG
    ensures ParseLong(LongText(n)) == Some(n)
  {
    if n < 0 {
      NegativeLongText(n);
    } else {
      var s := DecimalDigits(n);
      DecimalDigitsValue(n);
      assert IsDigit(s[0]);
      assert ParseLong(s) == Some(DigitsValue(s));
    }
  }

  lemma NegativeLongText(n: int)
    requires MIN_LONG <= n < 0
    ensures ParseLong(LongText(n)) == Some(n)
  {
    var digits := DecimalDigits(-n);
    var s := "-" + digits;
    assert s[0] == '-' && s[1..] == digits;
    DecimalDigitsValue(-n);
    var magnitude: int := DigitsValue(digits);
    assert ParseLong(s) == Some(-magnitude);
  }

  /** `Long.toString` never writes a comma. */
  lemma LongTextHasNoComma(n: int)
    ensures ',' !in LongText(n)
  {
    var s := LongText(n);
    if n < 0 {
      assert forall k :: 1 <= k < |s| ==> s[k] == DecimalDigits(-n)[k - 1];
    }
  }

  /** `Long.toInt()`: keeps the low 32 bits, read as a signed number. */
  function LongToInt(v: int): (r: int)
    requires MIN_LONG <= v <= MAX_LONG
    ensures MIN_INT <= r <= MAX_INT
    ensures (v - r) % 0x1_0000_0000 == 0
    ensures MIN_INT <= v <= MAX_INT ==> r == v
  {
    var low := v % 0x1_0000_0000;
    if low <= MAX_INT then low else low - 0x1_0000_0000
  }
}
