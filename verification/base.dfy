/**
 Shared vocabulary of the model: an optional value (Kotlin's nullable types),
 and the handful of string operations the bot's decision rules use —
 splitting on a delimiter, joining, character removal, ASCII case folding,
 literal first-occurrence replacement and decimal rendering of integers.
 */
module Base {

  /** A Kotlin `T?`: either absent or a present value. */
  datatype Option<+T> = None | Some(value: T) {
    /** Kotlin's elvis operator `x ?: d`. */
    function GetOr(default: T): T {
      match this
      case Some(v) => v
      case None => default
    }
  }

  /* ---------------------------------------------------------------------- */
  /* Joining and splitting                                                   */
  /* ---------------------------------------------------------------------- */

  /** Kotlin's `joinToString(sep)`: the parts with `sep` between neighbours. */
  function Join(parts: seq<string>, sep: string): string
  {
    if |parts| == 0 then ""
    else if |parts| == 1 then parts[0]
    else parts[0] + sep + Join(parts[1..], sep)
  }

  /** Concatenation of all parts, in order. */
  function Concat(parts: seq<string>): string
  {
    if |parts| == 0 then "" else parts[0] + Concat(parts[1..])
  }

  lemma ConcatAppend(parts: seq<string>, last: string)
    ensures Concat(parts + [last]) == Concat(parts) + last
  {
    if |parts| == 0 {
      assert parts + [last] == [last];
    } else {
      assert (parts + [last])[1..] == parts[1..] + [last];
      ConcatAppend(parts[1..], last);
    }
  }

  /** Kotlin's `split(sep)` with a one-character delimiter: every piece is kept,
      empty ones included, so a string with k delimiters gives k + 1 pieces.
      Joining the pieces with the delimiter gives the input back. */
  function Split(s: string, sep: char): (parts: seq<string>)
    ensures |parts| >= 1
    ensures forall i :: 0 <= i < |parts| ==> sep !in parts[i]
    ensures Join(parts, [sep]) == s
    decreases |s|
  {
    if |s| == 0 then [""]
    else if s[0] == sep then
      var rest := Split(s[1..], sep);
      assert Join([""] + rest, [sep]) == [sep] + Join(rest, [sep]) by {
        assert ([""] + rest)[1..] == rest;
      }
      [""] + rest
    else
      var rest := Split(s[1..], sep);
      var parts := [[s[0]] + rest[0]] + rest[1..];
      assert Join(parts, [sep]) == [s[0]] + Join(rest, [sep]) by {
        assert parts[1..] == rest[1..];
      }
      assert s == [s[0]] + s[1..];
      parts
  }

  /** A piece without the delimiter splits to itself. */
  lemma {:induction false} SplitWithoutSep(w: string, sep: char)
    requires sep !in w
    ensures Split(w, sep) == [w]
    decreases |w|
  {
    if |w| > 0 {
      assert sep !in w[1..];
      SplitWithoutSep(w[1..], sep);
      assert [w[0]] + w[1..] == w;
    }
  }

  /** Splitting `w + sep + t` cuts exactly after `w` when `w` has no delimiter. */
  lemma {:induction false} SplitAfterPiece(w: string, sep: char, t: string)
    requires sep !in w
    ensures Split(w + [sep] + t, sep) == [w] + Split(t, sep)
    decreases |w|
  {
    if |w| == 0 {
      assert w + [sep] + t == [sep] + t;
      assert ([sep] + t)[1..] == t;
    } else {
      var s := w + [sep] + t;
      assert s[0] == w[0] && s[1..] == w[1..] + [sep] + t;
      assert sep !in w[1..];
      SplitAfterPiece(w[1..], sep, t);
      assert [w[0]] + w[1..] == w;
    }
  }

  /** Splitting undoes joining, provided there is at least one piece and no
      piece contains the delimiter. */
  lemma {:induction false} SplitJoin(parts: seq<string>, sep: char)
    requires |parts| >= 1
    requires forall i :: 0 <= i < |parts| ==> sep !in parts[i]
    ensures Split(Join(parts, [sep]), sep) == parts
    decreases |parts|
  {
    if |parts| == 1 {
      SplitWithoutSep(parts[0], sep);
    } else {
      var rest := parts[1..];
      assert forall i :: 0 <= i < |rest| ==> sep !in rest[i] by {
        forall i | 0 <= i < |rest| ensures sep !in rest[i] {
          assert rest[i] == parts[i + 1];
        }
      }
      SplitJoin(rest, sep);
      assert sep !in parts[0];
      SplitAfterPiece(parts[0], sep, Join(rest, [sep]));
      assert Join(parts, [sep]) == parts[0] + [sep] + Join(rest, [sep]);
      assert [parts[0]] + rest == parts;
    }
  }

  /** Kotlin's `split(sep).dropLastWhile { it.isEmpty() }`: trailing empty
      pieces are discarded. */
  function DropTrailingEmpty(parts: seq<string>): (r: seq<string>)
    ensures r <= parts
    ensures |r| > 0 ==> r[|r| - 1] != ""
    ensures forall i :: |r| <= i < |parts| ==> parts[i] == ""
  {
    if |parts| == 0 then parts
    else if parts[|parts| - 1] == "" then DropTrailingEmpty(parts[..|parts| - 1])
    else parts
  }

  /* ---------------------------------------------------------------------- */
  /* Character removal and case folding                                      */
  /* ---------------------------------------------------------------------- */

  /** Kotlin's `replace(c.toString(), "")`: every occurrence of `c` is dropped
      and the other characters keep their order. */
  function RemoveChar(s: string, c: char): (r: string)
    ensures c !in r
    ensures |r| <= |s|
    ensures forall x :: x in r <==> x in s && x != c
    ensures c !in s ==> r == s
  {
    if |s| == 0 then ""
    else if s[0] == c then RemoveChar(s[1..], c)
    else [s[0]] + RemoveChar(s[1..], c)
  }

  /** Removal distributes over concatenation. */
  lemma {:induction false} RemoveCharAppend(a: string, b: string, c: char)
    ensures RemoveChar(a + b, c) == RemoveChar(a, c) + RemoveChar(b, c)
  {
    if |a| > 0 {
      assert (a + b)[0] == a[0] && (a + b)[1..] == a[1..] + b;
      RemoveCharAppend(a[1..], b, c);
      if a[0] == c {
        assert RemoveChar(a, c) == RemoveChar(a[1..], c);
      } else {
        assert RemoveChar(a, c) == [a[0]] + RemoveChar(a[1..], c);
      }
    } else {
      assert a + b == b;
    }
  }

  /** Removing a character twice is the same as removing it once. */
  lemma RemoveCharIdempotent(s: string, c: char)
    ensures RemoveChar(RemoveChar(s, c), c) == RemoveChar(s, c)
  {
  }

  /** ASCII case folding; `String.toLowerCase` is modelled on A-Z only. */
  function LowerChar(c: char): (r: char)
    ensures 'A' <= c <= 'Z' ==> 'a' <= r <= 'z'
    ensures !('A' <= c <= 'Z') ==> r == c
  {
    if 'A' <= c <= 'Z' then (c as int - 'A' as int + 'a' as int) as char else c
  }

  function Lower(s: string): (r: string)
    ensures |r| == |s|
    ensures forall i :: 0 <= i < |s| ==> r[i] == LowerChar(s[i])
    ensures forall i :: 0 <= i < |r| ==> !('A' <= r[i] <= 'Z')
  {
    if |s| == 0 then "" else [LowerChar(s[0])] + Lower(s[1..])
  }

  /** `equals(other, ignoreCase = true)` over the ASCII case folding. */
  predicate EqualsIgnoreCase(a: string, b: string)
  {
    Lower(a) == Lower(b)
  }

  /* ---------------------------------------------------------------------- */
  /* Literal replacement                                                     */
  /* ---------------------------------------------------------------------- */

  /** Kotlin's literal `replaceFirst(pat, repl)`: the first occurrence of `pat`
      is replaced by `repl`; without an occurrence the string is unchanged. */
  function ReplaceFirst(s: string, pat: string, repl: string): (r: string)
    ensures pat <= s ==> r == repl + s[|pat|..]
    decreases |s|
  {
    if pat <= s then repl + s[|pat|..]
    else if |s| == 0 then s
    else [s[0]] + ReplaceFirst(s[1..], pat, repl)
  }

  /** A string without any occurrence of `pat` is left unchanged. */
  lemma {:induction false} ReplaceFirstAbsent(s: string, pat: string, repl: string)
    requires forall i :: 0 <= i <= |s| ==> !(pat <= s[i..])
    ensures ReplaceFirst(s, pat, repl) == s
    decreases |s|
  {
    assert s[0..] == s;
    if |s| > 0 {
      forall i | 0 <= i <= |s[1..]| ensures !(pat <= s[1..][i..]) {
        assert s[1..][i..] == s[i + 1..];
      }
      ReplaceFirstAbsent(s[1..], pat, repl);
      assert [s[0]] + s[1..] == s;
    }
  }

  /* ---------------------------------------------------------------------- */
  /* Decimal rendering                                                       */
  /* ---------------------------------------------------------------------- */

  function DigitChar(d: nat): (c: char)
    requires d < 10
    ensures '0' <= c <= '9'
  {
    ('0' as int + d) as char
  }

  predicate IsDigit(c: char)
  {
    '0' <= c <= '9'
  }

  function DigitValue(c: char): nat
  {
    if IsDigit(c) then c as int - '0' as int else 0
  }

  /** Decimal digits of `n`, most significant first, without leading zeros. */
  function Decimal(n: nat): (s: string)
    ensures |s| >= 1
    ensures forall i :: 0 <= i < |s| ==> IsDigit(s[i])
    ensures n < 10 <==> |s| == 1
  {
    if n < 10 then [DigitChar(n)] else Decimal(n / 10) + [DigitChar(n % 10)]
  }

  /** Reads a string of decimal digits back as a number. */
  function ParseDecimal(s: string): nat
  {
    if |s| == 0 then 0 else ParseDecimal(s[..|s| - 1]) * 10 + DigitValue(s[|s| - 1])
  }

  /** Reading the decimal rendering gives the number back. */
  lemma {:induction false} ParseDecimalOfDecimal(n: nat)
    ensures ParseDecimal(Decimal(n)) == n
  {
    if n >= 10 {
      var s := Decimal(n);
      assert s[..|s| - 1] == Decimal(n / 10);
      ParseDecimalOfDecimal(n / 10);
    }
  }

  /** Java's `Integer.toString` / string interpolation of an integer. */
  function IntToString(i: int): (s: string)
    ensures i >= 0 ==> s == Decimal(i)
    ensures i < 0 ==> s == "-" + Decimal(-i)
  {
    if i < 0 then "-" + Decimal(-i) else Decimal(i)
  }

  /* ---------------------------------------------------------------------- */
  /* First match in a list                                                   */
  /* ---------------------------------------------------------------------- */

  /** Position of the first element satisfying `p` (a linear `find`). */
  function FirstIndex<T>(xs: seq<T>, p: T -> bool): (r: Option<nat>)
    ensures r.Some? ==> r.value < |xs| && p(xs[r.value])
    ensures r.Some? ==> forall j :: 0 <= j < r.value ==> !p(xs[j])
    ensures r.None? <==> forall j :: 0 <= j < |xs| ==> !p(xs[j])
  {
    if |xs| == 0 then None
    else if p(xs[0]) then Some(0)
    else match FirstIndex(xs[1..], p)
      case None => None
      case Some(k) => Some(k + 1)
  }

  /** The first element satisfying `p`, Kotlin's `firstOrNull(p)`. */
  function FirstMatch<T>(xs: seq<T>, p: T -> bool): (r: Option<T>)
    ensures r.Some? ==> r.value in xs && p(r.value)
    ensures r.None? <==> forall j :: 0 <= j < |xs| ==> !p(xs[j])
    ensures forall k :: 0 <= k < |xs| && p(xs[k]) && (forall j :: 0 <= j < k ==> !p(xs[j])) ==> r == Some(xs[k])
  {
    match FirstIndex(xs, p)
    case None => None
    case Some(k) => Some(xs[k])
  }

  /** The first stage that found something, if any: an independent statement
      of "the stages are tried in order and the first answer wins". */
  function FirstFound<T>(found: seq<Option<T>>): (r: Option<T>)
    ensures r.None? <==> forall i :: 0 <= i < |found| ==> found[i].None?
    ensures r.Some? ==> exists i :: 0 <= i < |found| && found[i] == r && forall j :: 0 <= j < i ==> found[j].None?
  {
    if |found| == 0 then None
    else if found[0].Some? then found[0]
    else
      var rest := FirstFound(found[1..]);
      assert forall i :: 1 <= i < |found| ==> found[i] == found[1..][i - 1];
      rest
  }

  lemma FirstFoundCons<T>(a: Option<T>, rest: seq<Option<T>>)
    ensures FirstFound([a] + rest) == if a.Some? then a else FirstFound(rest)
  {
    assert ([a] + rest)[1..] == rest;
  }

  /** The first answer of a concatenation is the first part's, when it has one. */
  lemma {:induction false} FirstFoundAppend<T>(a: seq<Option<T>>, b: seq<Option<T>>)
    ensures FirstFound(a + b) == if FirstFound(a).Some? then FirstFound(a) else FirstFound(b)
  {
    if |a| > 0 {
      FirstFoundCons(a[0], a[1..] + b);
      assert a + b == [a[0]] + (a[1..] + b);
      FirstFoundAppend(a[1..], b);
      FirstFoundCons(a[0], a[1..]);
      assert a == [a[0]] + a[1..];
    } else {
      assert a + b == b;
    }
  }

  lemma FirstFoundOfTwo<T>(a: Option<T>, b: Option<T>)
    ensures FirstFound([a, b]) == if a.Some? then a else b
  {
    FirstFoundCons(b, []);
    assert [b] + [] == [b];
    FirstFoundCons(a, [b]);
  }

  lemma FirstFoundOfThree<T>(a: Option<T>, b: Option<T>, c: Option<T>)
    ensures FirstFound([a, b, c]) == if a.Some? then a else if b.Some? then b else c
  {
    FirstFoundOfTwo(b, c);
    FirstFoundCons(a, [b, c]);
    assert [a] + [b, c] == [a, b, c];
  }

  lemma FirstFoundOfFour<T>(a: Option<T>, b: Option<T>, c: Option<T>, d: Option<T>)
    ensures FirstFound([a, b, c, d]) == if a.Some? then a else if b.Some? then b else if c.Some? then c else d
  {
    FirstFoundOfThree(b, c, d);
    FirstFoundCons(a, [b, c, d]);
    assert [a] + [b, c, d] == [a, b, c, d];
  }

  lemma FirstFoundOfFive<T>(a: Option<T>, b: Option<T>, c: Option<T>, d: Option<T>, e: Option<T>)
    ensures FirstFound([a, b, c, d, e])
         == if a.Some? then a else if b.Some? then b else if c.Some? then c else if d.Some? then d else e
  {
    FirstFoundOfFour(b, c, d, e);
    FirstFoundCons(a, [b, c, d, e]);
    assert [a] + [b, c, d, e] == [a, b, c, d, e];
  }
}
