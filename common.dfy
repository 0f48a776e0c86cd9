/** Shared vocabulary: optional values, results, and the few string rules
    (lower-casing, substring search, trimming, decimal digits) that the
    JavaScript and Python code relies on. */
module Common {

  datatype Option<T> = None | Some(value: T)

  datatype Result<T, E> = Ok(value: T) | Err(error: E)

  // ---------------------------------------------------------------------
  // JavaScript values where the components treat them loosely: an id from a
  // response may be a number, a string, `null` or missing. Numbers are
  // modelled as integers.

  datatype JsValue = Undefined | Null | Num(n: int) | Str(s: string)

  /** JavaScript truthiness on these values. */
  predicate Truthy(v: JsValue)
  {
    match v
    case Undefined => false
    case Null => false
    case Num(n) => n != 0
    case Str(s) => s != []
  }

  /** `a || b`: the left operand when it is truthy, else the right one. */
  function Or(a: JsValue, b: JsValue): JsValue
  {
    if Truthy(a) then a else b
  }

  // ---------------------------------------------------------------------
  // Sequences: `Array.prototype.filter`, list comprehensions with an `if`.

  /** The elements of `s` that satisfy `p`, in their original order. */
  function Filter<T>(s: seq<T>, p: T -> bool): (r: seq<T>)
    ensures |r| <= |s|
    ensures forall i :: 0 <= i < |r| ==> r[i] in s && p(r[i])
    ensures forall i :: 0 <= i < |s| && p(s[i]) ==> s[i] in r
  {
    if s == [] then [] else (if p(s[0]) then [s[0]] else []) + Filter(s[1..], p)
  }

  /** Filtering distributes over concatenation: relative order is kept. */
  lemma {:induction false} FilterAppend<T>(a: seq<T>, b: seq<T>, p: T -> bool)
    ensures Filter(a + b, p) == Filter(a, p) + Filter(b, p)
  {
    if a == [] {
      assert a + b == b;
    } else {
      assert (a + b)[1..] == a[1..] + b;
      FilterAppend(a[1..], b, p);
    }
  }

  /** A test every element passes keeps the whole list. */
  lemma {:induction false} FilterAll<T>(s: seq<T>, p: T -> bool)
    requires forall i :: 0 <= i < |s| ==> p(s[i])
    ensures Filter(s, p) == s
  {
    if s != [] {
      FilterAll(s[1..], p);
      assert s == [s[0]] + s[1..];
    }
  }

  /** Filtering a list that holds each value at most once keeps that so. */
  lemma {:induction false} FilterDistinct<T>(s: seq<T>, p: T -> bool)
    requires Distinct(s)
    ensures Distinct(Filter(s, p))
  {
    if s != [] {
      FilterDistinct(s[1..], p);
    }
  }

  ghost predicate Distinct<T>(s: seq<T>)
  {
    forall i, j :: 0 <= i < j < |s| ==> s[i] != s[j]
  }

  // ---------------------------------------------------------------------
  // Case folding. `toLowerCase()` / `lower()` are modelled on ASCII only.

  function LowerChar(c: char): (r: char)
    ensures 'A' <= c <= 'Z' ==> r as int == c as int + 32
    ensures !('A' <= c <= 'Z') ==> r == c
  {
    if 'A' <= c <= 'Z' then (c as int + 32) as char else c
  }

  function Lower(s: string): (r: string)
    ensures |r| == |s|
    ensures forall i :: 0 <= i < |s| ==> r[i] == LowerChar(s[i])
  {
    if s == [] then [] else [LowerChar(s[0])] + Lower(s[1..])
  }

  // ---------------------------------------------------------------------
  // `String.prototype.includes`: does `t` occur somewhere in `s`?

  /** `t` occurs in `s` starting at index `i`. */
  predicate OccursAt(s: string, t: string, i: int)
  {
    0 <= i && i + |t| <= |s| && s[i..i + |t|] == t
  }

  predicate Includes(s: string, t: string)
  {
    exists i | 0 <= i <= |s| :: OccursAt(s, t, i)
  }

  /** The search term "" is found in every text. */
  lemma EmptyIsIncluded(s: string)
    ensures Includes(s, [])
  {
    assert OccursAt(s, [], 0);
  }

  /** Case-insensitive search as the components write it:
      `x.toLowerCase().includes(term.toLowerCase())`. */
  predicate MatchesSearch(text: string, term: string)
  {
    Includes(Lower(text), Lower(term))
  }

  // ---------------------------------------------------------------------
  // `String.prototype.trim`: the white-space and line-terminator characters
  // of the ECMAScript standard that lie in the Basic Latin and Latin-1
  // blocks, plus the byte-order mark and the two Unicode line separators.

  predicate IsJsSpace(c: char)
  {
    c == ' ' || c == '\t' || c == '\n' || c == '\r' || c == '\U{0B}' || c == '\U{0C}'
    || c == '\U{A0}' || c == '\U{FEFF}' || c == '\U{2028}' || c == '\U{2029}'
  }

  predicate AllSpace(s: string)
  {
    forall i :: 0 <= i < |s| ==> IsJsSpace(s[i])
  }

  /** Drops white space from the front. */
  function TrimStart(s: string): string
  {
    if s != [] && IsJsSpace(s[0]) then TrimStart(s[1..]) else s
  }

  /** Drops white space from the back. */
  function TrimEnd(s: string): string
  {
    if s != [] && IsJsSpace(s[|s| - 1]) then TrimEnd(s[..|s| - 1]) else s
  }

  /** `String.prototype.trim`. */
  function Trim(s: string): string
  {
    TrimEnd(TrimStart(s))
  }

  /** `TrimStart` keeps a suffix, drops only white space, and stops at the
      first character that is not. */
  lemma {:induction false} TrimStartSpec(s: string)
    ensures var r := TrimStart(s);
      && |r| <= |s| && r == s[|s| - |r|..]
      && (forall k :: 0 <= k < |s| - |r| ==> IsJsSpace(s[k]))
      && (r != [] ==> !IsJsSpace(r[0]))
  {
    if s != [] && IsJsSpace(s[0]) {
      assert TrimStart(s) == TrimStart(s[1..]);
      TrimStartSpec(s[1..]);
    }
  }

  /** `TrimEnd` keeps a prefix, drops only white space, and stops at the
      last character that is not. */
  lemma {:induction false} TrimEndSpec(s: string)
    ensures var r := TrimEnd(s);
      && |r| <= |s| && r == s[..|r|]
      && (forall k :: |r| <= k < |s| ==> IsJsSpace(s[k]))
      && (r != [] ==> !IsJsSpace(r[|r| - 1]))
  {
    if s != [] && IsJsSpace(s[|s| - 1]) {
      assert TrimEnd(s) == TrimEnd(s[..|s| - 1]);
      TrimEndSpec(s[..|s| - 1]);
    }
  }

  /** What `Trim` keeps: the slice of `s` after its leading white space, empty
      exactly when `s` is all white space, and otherwise starting and ending
      with a character that is not white space. */
  lemma TrimSpec(s: string)
    ensures var r := Trim(s);
      && OccursAt(s, r, |s| - |TrimStart(s)|)
      && (r != [] ==> !IsJsSpace(r[0]) && !IsJsSpace(r[|r| - 1]))
      && (r == [] <==> AllSpace(s))
  {
    var a, r := TrimStart(s), Trim(s);
    TrimStartSpec(s);
    TrimEndSpec(a);
    var i := |s| - |a|;
    assert s[i..i + |r|] == a[..|r|];
    if r != [] {
      assert !IsJsSpace(s[i]);
    }
  }

  // ---------------------------------------------------------------------
  // Decimal digits.

  predicate IsDigit(c: char)
  {
    '0' <= c <= '9'
  }

  /** Python's `str.isdigit()` on ASCII text: non-empty and all digits. */
  predicate IsDigits(s: string)
  {
    |s| > 0 && forall i :: 0 <= i < |s| ==> IsDigit(s[i])
  }

  /** Python's `int(s)` on a string of digits. */
  function DigitsValue(s: string): (n: nat)
    requires forall i :: 0 <= i < |s| ==> IsDigit(s[i])
  {
    if s == [] then 0
    else
      var d := s[|s| - 1];
      assert IsDigit(d);
      DigitsValue(s[..|s| - 1]) * 10 + (d as int - '0' as int)
  }

  /** `str(n)` for a natural number: shortest decimal spelling. */
  function NatToString(n: nat): (r: string)
    ensures IsDigits(r)
    ensures r[0] == '0' ==> n == 0 && |r| == 1
    decreases n
  {
    if n < 10 then [('0' as int + n) as char]
    else NatToString(n / 10) + [('0' as int + n % 10) as char]
  }

  lemma {:induction false} NatToStringRoundTrip(n: nat)
    ensures DigitsValue(NatToString(n)) == n
    decreases n
  {
    var r := NatToString(n);
    if n >= 10 {
      NatToStringRoundTrip(n / 10);
      assert r[..|r| - 1] == NatToString(n / 10);
    }
  }

  /** `String(n)` for an integer: a minus sign, then the digits of `|n|`. */
  function IntToString(n: int): string
  {
    if n < 0 then "-" + NatToString(-n) else NatToString(n)
  }

  /** `String(v)` and template-literal interpolation. */
  function JsString(v: JsValue): string
  {
    match v
    case Undefined => "undefined"
    case Null => "null"
    case Num(n) => IntToString(n)
    case Str(s) => s
  }

  // ---------------------------------------------------------------------
  // A stable sort, largest key first: SQL's `ORDER BY ... DESC` as this
  // model resolves ties, and `Array.prototype.sort` with a descending
  // comparator.

  ghost predicate DescendingBy<T>(s: seq<T>, key: T -> int)
  {
    forall i, j :: 0 <= i < j < |s| ==> key(s[i]) >= key(s[j])
  }

  /** Places `x` before the first element whose key is not larger. */
  function InsertBy<T(==)>(x: T, s: seq<T>, key: T -> int): (r: seq<T>)
    ensures multiset(r) == multiset(s) + multiset{x}
    ensures |r| == |s| + 1
    ensures r[0] == (if s == [] || key(s[0]) <= key(x) then x else s[0])
  {
    if s == [] || key(s[0]) <= key(x) then [x] + s
    else
      assert s == [s[0]] + s[1..];
      [s[0]] + InsertBy(x, s[1..], key)
  }

  /** Inserting into a descending list keeps it descending. */
  lemma {:induction false} InsertByKeepsOrder<T>(x: T, s: seq<T>, key: T -> int)
    requires DescendingBy(s, key)
    ensures DescendingBy(InsertBy(x, s, key), key)
  {
    if s != [] && key(s[0]) > key(x) {
      var rest := InsertBy(x, s[1..], key);
      InsertByKeepsOrder(x, s[1..], key);
      assert key(rest[0]) <= key(s[0]);
      assert InsertBy(x, s, key) == [s[0]] + rest;
    }
  }

  /** The elements largest key first; equal keys keep their order. */
  function SortDescBy<T(==)>(s: seq<T>, key: T -> int): (r: seq<T>)
    ensures multiset(r) == multiset(s) && |r| == |s|
  {
    if s == [] then []
    else
      assert s == [s[0]] + s[1..];
      InsertBy(s[0], SortDescBy(s[1..], key), key)
  }

  /** `x => key(x) == v`: the elements whose key is `v`. */
  function WithKey<T>(key: T -> int, v: int): T -> bool
  {
    (x: T) => key(x) == v
  }

  /** `Filter(s, WithKey(key, v))` written out, so that the stability
      proof does not carry `Filter`'s membership clauses. */
  function Keyed<T>(s: seq<T>, key: T -> int, v: int): seq<T>
  {
    if s == [] then [] else (if key(s[0]) == v then [s[0]] else []) + Keyed(s[1..], key, v)
  }

  lemma {:induction false} KeyedIsFilter<T>(s: seq<T>, key: T -> int, v: int)
    ensures Keyed(s, key, v) == Filter(s, WithKey(key, v))
  {
    if s != [] {
      KeyedIsFilter(s[1..], key, v);
    }
  }

  /** `x` goes in front of every element of equal key, and the others with
      that key keep their order. */
  lemma {:induction false} InsertByStable<T>(x: T, s: seq<T>, key: T -> int, v: int)
    ensures Keyed(InsertBy(x, s, key), key, v) == (if key(x) == v then [x] else []) + Keyed(s, key, v)
  {
    var r := InsertBy(x, s, key);
    if s == [] || key(s[0]) <= key(x) {
      assert r == [x] + s;
      assert r[1..] == s;
    } else {
      var rest := InsertBy(x, s[1..], key);
      assert r == [s[0]] + rest;
      assert r[1..] == rest;
      InsertByStable(x, s[1..], key, v);
    }
  }

  lemma {:induction false} KeyedSorted<T>(s: seq<T>, key: T -> int, v: int)
    ensures Keyed(SortDescBy(s, key), key, v) == Keyed(s, key, v)
  {
    if s != [] {
      KeyedSorted(s[1..], key, v);
      InsertByStable(s[0], SortDescBy(s[1..], key), key, v);
    }
  }

  /** The sort is stable: the elements of any one key come out in the
      order they went in. */
  lemma SortDescByStable<T>(s: seq<T>, key: T -> int, v: int)
    ensures Filter(SortDescBy(s, key), WithKey(key, v)) == Filter(s, WithKey(key, v))
  {
    KeyedSorted(s, key, v);
    KeyedIsFilter(s, key, v);
    KeyedIsFilter(SortDescBy(s, key), key, v);
  }

  /** The sort's result is descending. */
  lemma {:induction false} SortDescByOrdered<T>(s: seq<T>, key: T -> int)
    ensures DescendingBy(SortDescBy(s, key), key)
  {
    if s != [] {
      SortDescByOrdered(s[1..], key);
      InsertByKeepsOrder(s[0], SortDescBy(s[1..], key), key);
    }
  }
}
