/**
 * The java.lang.String and Integer primitives the core is built from, with
 * the semantics the core relies on:
 *  - trim strips every leading and trailing character at most U+0020;
 *  - toLowerCase and equalsIgnoreCase are taken on ASCII letters only;
 *  - split(literal, 2) cuts at the first occurrence of the separator;
 *  - split("\\|") and split("\\s+") (limit 0) cut at every separator and drop
 *    trailing empty fields, and give the whole string when nothing matches;
 *  - Integer.parseInt accepts an optional sign and ASCII digits in 32-bit range.
 */
module JavaStrings {
  import opened Wrappers

  // ---------------------------------------------------------------- trim

  predicate IsTrimChar(c: char) { c <= ' ' }

  predicate AllTrimChars(s: string)
  {
    forall i :: 0 <= i < |s| ==> IsTrimChar(s[i])
  }

  /** What trim leaves: nothing, or a string that neither starts nor ends with a trim character. */
  predicate IsTrimmed(s: string)
  {
    s == [] || (!IsTrimChar(s[0]) && !IsTrimChar(s[|s| - 1]))
  }

  function TrimStart(s: string): (r: string)
    ensures |r| <= |s|
    ensures r == [] || !IsTrimChar(r[0])
  {
    if s != [] && IsTrimChar(s[0]) then TrimStart(s[1..]) else s
  }

  function TrimEnd(s: string): (r: string)
    ensures |r| <= |s|
    ensures r == [] || !IsTrimChar(r[|r| - 1])
    ensures s != [] && !IsTrimChar(s[0]) ==> r != [] && r[0] == s[0]
  {
    if s != [] && IsTrimChar(s[|s| - 1]) then TrimEnd(s[..|s| - 1]) else s
  }

  /** String.trim */
  function Trim(s: string): (r: string)
    ensures IsTrimmed(r)
    ensures |r| <= |s|
  {
    TrimEnd(TrimStart(s))
  }

  /** TrimStart drops a prefix of trim characters and keeps the rest. */
  lemma {:induction false} TrimStartSlice(s: string)
    ensures TrimStart(s) == s[|s| - |TrimStart(s)|..]
    ensures AllTrimChars(s[..|s| - |TrimStart(s)|])
  {
    if s != [] && IsTrimChar(s[0]) {
      var r := TrimStart(s[1..]);
      TrimStartSlice(s[1..]);
      assert s[..|s| - |r|] == [s[0]] + s[1..][..|s| - 1 - |r|];
    }
  }

  /** TrimEnd drops a suffix of trim characters and keeps the rest. */
  lemma {:induction false} TrimEndSlice(s: string)
    ensures TrimEnd(s) == s[..|TrimEnd(s)|]
    ensures AllTrimChars(s[|TrimEnd(s)|..])
  {
    if s != [] && IsTrimChar(s[|s| - 1]) {
      var r := TrimEnd(s[..|s| - 1]);
      TrimEndSlice(s[..|s| - 1]);
      assert s[|r|..] == s[..|s| - 1][|r|..] + [s[|s| - 1]];
    }
  }

  /** trim keeps one contiguous piece of s and removes only trim characters around it. */
  lemma TrimSlice(s: string)
    ensures exists i, j :: 0 <= i <= j <= |s| && Trim(s) == s[i..j]
                           && AllTrimChars(s[..i]) && AllTrimChars(s[j..])
  {
    var u := TrimStart(s);
    TrimStartSlice(s);
    TrimEndSlice(u);
    var i := |s| - |u|;
    var j := i + |Trim(s)|;
    assert u == s[i..];
    assert Trim(s) == s[i..j];
    assert s[j..] == u[|Trim(s)|..];
  }

  lemma {:induction false} TrimStartOf(w: string, t: string)
    requires AllTrimChars(w)
    requires t == [] || !IsTrimChar(t[0])
    ensures TrimStart(w + t) == t
  {
    if w == [] {
      assert w + t == t;
    } else {
      var s := w + t;
      assert s[0] == w[0];
      assert s[1..] == w[1..] + t;
      TrimStartOf(w[1..], t);
    }
  }

  lemma {:induction false} TrimEndOf(t: string, w: string)
    requires AllTrimChars(w)
    requires t == [] || !IsTrimChar(t[|t| - 1])
    ensures TrimEnd(t + w) == t
  {
    if w == [] {
      assert t + w == t;
    } else {
      var s := t + w;
      assert s[|s| - 1] == w[|w| - 1];
      assert s[..|s| - 1] == t + w[..|w| - 1];
      TrimEndOf(t, w[..|w| - 1]);
    }
  }

  /** Trim removes exactly the trim characters around a trimmed core. */
  lemma TrimSurrounded(w1: string, m: string, w2: string)
    requires AllTrimChars(w1) && AllTrimChars(w2) && IsTrimmed(m)
    ensures Trim(w1 + m + w2) == m
  {
    if m == [] {
      var s := w1 + w2;
      assert w1 + m + w2 == s;
      assert AllTrimChars(s) by {
        forall i | 0 <= i < |s| ensures IsTrimChar(s[i]) {
          if i < |w1| { assert s[i] == w1[i]; } else { assert s[i] == w2[i - |w1|]; }
        }
      }
      TrimStartOf(s, []);
      assert s + [] == s;
    } else {
      assert w1 + m + w2 == w1 + (m + w2);
      TrimStartOf(w1, m + w2);
      TrimEndOf(m, w2);
    }
  }

  lemma TrimOfTrimmed(s: string)
    requires IsTrimmed(s)
    ensures Trim(s) == s
  {
    TrimSurrounded([], s, []);
    assert [] + s + [] == s;
  }

  lemma TrimIdempotent(s: string)
    ensures Trim(Trim(s)) == Trim(s)
  {
    TrimOfTrimmed(Trim(s));
  }

  /** One blank in front changes nothing once trimmed. */
  lemma TrimLeadingBlank(s: string)
    ensures Trim(" " + s) == Trim(s)
  {
    assert (" " + s)[1..] == s;
  }

  /** A string whose first character is visible never trims to nothing. */
  lemma TrimNonEmpty(s: string)
    requires s != [] && !IsTrimChar(s[0])
    ensures Trim(s) != []
  {
    TrimStartOf([], s);
    assert [] + s == s;
  }

  // ---------------------------------------------------------------- case

  /** Character.toLowerCase on ASCII letters. */
  function LowerChar(c: char): char
  {
    if 'A' <= c <= 'Z' then (c as int + 32) as char else c
  }

  /** String.toLowerCase (ASCII). */
  function ToLower(s: string): (r: string)
    ensures |r| == |s|
    ensures forall i :: 0 <= i < |s| ==> r[i] == LowerChar(s[i])
  {
    seq(|s|, i requires 0 <= i < |s| => LowerChar(s[i]))
  }

  /** String.equalsIgnoreCase (ASCII): same length, equal letter by letter up to case. */
  predicate EqualsIgnoreCase(a: string, b: string)
  {
    |a| == |b| && forall i :: 0 <= i < |a| ==> LowerChar(a[i]) == LowerChar(b[i])
  }

  // ---------------------------------------------------------------- search

  /** String.startsWith */
  predicate StartsWith(s: string, prefix: string)
  {
    |prefix| <= |s| && s[..|prefix|] == prefix
  }

  /** A string starts with each of its prefixes, and what follows is the rest. */
  lemma StartsWithConcat(p: string, q: string)
    ensures StartsWith(p + q, p) && (p + q)[|p|..] == q
  {
    assert (p + q)[..|p|] == p;
  }

  /** Starting with p + q implies starting with p. */
  lemma StartsWithShorter(s: string, p: string, q: string)
    requires StartsWith(s, p + q)
    ensures StartsWith(s, p) && |s| >= |p| + |q|
  {
    assert s[..|p|] == (p + q)[..|p|] == p;
  }

  predicate OccursAt(s: string, sep: string, k: nat)
  {
    k + |sep| <= |s| && s[k..k + |sep|] == sep
  }

  /** String.indexOf: the first position at which sep occurs in s. */
  function IndexOf(s: string, sep: string): (r: Option<nat>)
    ensures r.Some? ==> OccursAt(s, sep, r.value)
    ensures forall k: nat :: OccursAt(s, sep, k) ==> r.Some? && r.value <= k
    decreases |s|
  {
    if |s| < |sep| then None
    else if s[..|sep|] == sep then Some(0)
    else
      var rest := IndexOf(s[1..], sep);
      assert forall k: nat :: 1 <= k && OccursAt(s, sep, k) ==> OccursAt(s[1..], sep, k - 1) by {
        forall k: nat | 1 <= k && OccursAt(s, sep, k) ensures OccursAt(s[1..], sep, k - 1) {
          OccursAtTail(s, sep, k - 1);
        }
      }
      match rest
      case None => None
      case Some(i) =>
        OccursAtTail(s, sep, i);
        Some(i + 1)
  }

  /** An occurrence at k + 1 in s is an occurrence at k in its tail, and back. */
  lemma OccursAtTail(s: string, sep: string, k: nat)
    requires s != []
    ensures OccursAt(s, sep, k + 1) <==> OccursAt(s[1..], sep, k)
  {
    if k + 1 + |sep| <= |s| {
      assert s[1..][k..k + |sep|] == s[k + 1..k + 1 + |sep|];
    }
  }

  /** String.contains */
  predicate Contains(s: string, sub: string)
  {
    IndexOf(s, sub).Some?
  }

  /** The first occurrence in a prefix stays the first occurrence in any extension. */
  lemma IndexOfExtend(p: string, q: string, sep: string)
    requires IndexOf(p, sep).Some?
    ensures IndexOf(p + q, sep) == IndexOf(p, sep)
  {
    var k := IndexOf(p, sep).value;
    OccursInPrefix(p, q, sep, k);
    var j := IndexOf(p + q, sep).value;
    OccursInPrefix(p, q, sep, j);
  }

  /** An occurrence that fits inside p is the same in p and in p + q. */
  lemma OccursInPrefix(p: string, q: string, sep: string, k: nat)
    requires k + |sep| <= |p|
    ensures OccursAt(p + q, sep, k) <==> OccursAt(p, sep, k)
  {
    assert (p + q)[k..k + |sep|] == p[k..k + |sep|];
  }

  // ---------------------------------------------------------------- split

  /** String.split(sep, 2) for a literal separator. */
  function SplitOnce(s: string, sep: string): (parts: seq<string>)
    requires sep != []
    ensures 1 <= |parts| <= 2
    ensures |parts| == 1 <==> !Contains(s, sep)
    ensures |parts| == 1 ==> parts[0] == s
    ensures |parts| == 2 ==> s == parts[0] + sep + parts[1] && IndexOf(s, sep) == Some(|parts[0]|)
  {
    match IndexOf(s, sep)
    case None => [s]
    case Some(i) =>
      assert s == s[..i] + s[i..i + |sep|] + s[i + |sep|..];
      [s[..i], s[i + |sep|..]]
  }

  /** s is a, then sep, then b, and this sep is the first one in s. */
  predicate SplitsAt(s: string, sep: string, a: string, b: string)
  {
    s == a + sep + b && IndexOf(s, sep) == Some(|a|)
  }

  /** split(sep, 2) yields [a, b] exactly when s splits at its first sep into a and b. */
  lemma SplitOnceIff(s: string, sep: string, a: string, b: string)
    requires sep != []
    ensures SplitOnce(s, sep) == [a, b] <==> SplitsAt(s, sep, a, b)
  {
    if SplitsAt(s, sep, a, b) {
      assert s[..|a|] == a;
      assert s[|a| + |sep|..] == b;
    }
  }

  /** The fields of s between the occurrences of c, before Java drops trailing empty ones. */
  function Pieces(s: string, c: char): (r: seq<string>)
    ensures |r| >= 1
    ensures forall i :: 0 <= i < |r| ==> c !in r[i]
  {
    if s == [] then [[]]
    else
      var rest := Pieces(s[1..], c);
      if s[0] == c then [[]] + rest else [[s[0]] + rest[0]] + rest[1..]
  }

  /** Pattern.split with limit 0 drops trailing empty strings. */
  function DropTrailingEmpty(r: seq<string>): (t: seq<string>)
    ensures |t| <= |r| && t == r[..|t|]
    ensures t == [] || t[|t| - 1] != []
    ensures forall i :: |t| <= i < |r| ==> r[i] == []
  {
    if r != [] && r[|r| - 1] == [] then DropTrailingEmpty(r[..|r| - 1]) else r
  }

  /** String.split of a one-character regex such as "\\|" (limit 0). */
  function SplitChar(s: string, c: char): (parts: seq<string>)
    ensures forall i :: 0 <= i < |parts| ==> c !in parts[i]
  {
    if c !in s then [s] else DropTrailingEmpty(Pieces(s, c))
  }

  lemma {:induction false} PiecesCons(a: string, c: char, b: string)
    requires c !in a
    ensures Pieces(a + [c] + b, c) == [a] + Pieces(b, c)
  {
    if a == [] {
      assert (a + [c] + b)[1..] == b;
    } else {
      PiecesCons(a[1..], c, b);
      assert (a + [c] + b)[1..] == a[1..] + [c] + b;
      assert [a[0]] + a[1..] == a;
    }
  }

  /** The first field split("\\|") gives is everything before the first separator, when that is not empty. */
  lemma SplitCharHead(a: string, c: char, b: string)
    requires c !in a && a != []
    ensures var parts := SplitChar(a + [c] + b, c); |parts| >= 1 && parts[0] == a
  {
    var s := a + [c] + b;
    assert s[|a|] == c;
    PiecesCons(a, c, b);
    var r := Pieces(s, c);
    assert r[0] == a;
  }

  /** The first field of a split is where the string starts. */
  lemma SplitCharPrefix(s: string, c: char)
    ensures var parts := SplitChar(s, c); |parts| >= 1 ==> |parts[0]| <= |s| && parts[0] == s[..|parts[0]|]
  {
    if c in s {
      PiecesPrefix(s, c);
    }
  }

  lemma {:induction false} PiecesPrefix(s: string, c: char)
    ensures var p := Pieces(s, c)[0]; |p| <= |s| && p == s[..|p|]
  {
    if s != [] && s[0] != c {
      PiecesPrefix(s[1..], c);
      var q := Pieces(s[1..], c)[0];
      assert [s[0]] + q == s[..|q| + 1];
    }
  }

  lemma {:induction false} PiecesNone(s: string, c: char)
    requires c !in s
    ensures Pieces(s, c) == [s]
  {
    if s != [] {
      PiecesNone(s[1..], c);
      assert [s[0]] + s[1..] == s;
    }
  }

  predicate IsRegexSpace(c: char)
  {
    c == ' ' || c == '\t' || c == '\n' || c == '\r' || c as int == 11 || c as int == 12
  }

  predicate NoRegexSpace(s: string)
  {
    forall i :: 0 <= i < |s| ==> !IsRegexSpace(s[i])
  }

  function SkipSpaces(s: string): (r: string)
    ensures |r| <= |s| && r == s[|s| - |r|..]
    ensures r == [] || !IsRegexSpace(r[0])
    ensures forall i :: 0 <= i < |s| - |r| ==> IsRegexSpace(s[i])
    ensures s != [] && IsRegexSpace(s[0]) ==> |r| < |s|
  {
    if s != [] && IsRegexSpace(s[0]) then SkipSpaces(s[1..]) else s
  }

  /** The pieces between maximal runs of \s, before trailing empty ones are dropped. */
  function WsPieces(s: string): (r: seq<string>)
    ensures |r| >= 1
    decreases |s|
  {
    if s == [] then [[]]
    else if IsRegexSpace(s[0]) then [[]] + WsPieces(SkipSpaces(s))
    else
      var rest := WsPieces(s[1..]);
      [[s[0]] + rest[0]] + rest[1..]
  }

  /** String.split("\\s+") (limit 0). */
  function SplitWhitespace(s: string): seq<string>
  {
    if NoRegexSpace(s) then [s] else DropTrailingEmpty(WsPieces(s))
  }

  /** A non-space character joins the first piece of what follows it. */
  lemma WsPiecesCons(c: char, t: string)
    requires !IsRegexSpace(c)
    ensures WsPieces([c] + t) == [[c] + WsPieces(t)[0]] + WsPieces(t)[1..]
  {
    var s := [c] + t;
    assert s[0] == c && s[1..] == t;
  }

  lemma {:induction false} WsPiecesWord(a: string, t: string)
    requires NoRegexSpace(a)
    ensures WsPieces(a + t) == [a + WsPieces(t)[0]] + WsPieces(t)[1..]
  {
    if a == [] {
      WsPiecesEmptyWord(t);
    } else {
      var b := a[1..];
      assert NoRegexSpace(b) by {
        forall i | 0 <= i < |b| ensures !IsRegexSpace(b[i]) {
          assert b[i] == a[i + 1];
        }
      }
      WsPiecesWord(b, t);
      WsPiecesStep(a[0], b, t);
      assert [a[0]] + b == a;
    }
  }

  lemma WsPiecesEmptyWord(t: string)
    ensures WsPieces([] + t) == [[] + WsPieces(t)[0]] + WsPieces(t)[1..]
  {
    var p := WsPieces(t);
    assert [] + t == t;
    assert [] + p[0] == p[0];
    assert [p[0]] + p[1..] == p;
  }

  /** One non-space character in front of a word that already splits as stated. */
  lemma WsPiecesStep(c: char, b: string, t: string)
    requires !IsRegexSpace(c)
    requires WsPieces(b + t) == [b + WsPieces(t)[0]] + WsPieces(t)[1..]
    ensures WsPieces(([c] + b) + t) == [([c] + b) + WsPieces(t)[0]] + WsPieces(t)[1..]
  {
    var x := b + t;
    assert ([c] + b) + t == [c] + x;
    WsPiecesCons(c, x);
    ConsOntoFirst(c, b, WsPieces(t), WsPieces(x));
  }

  /** Putting c in front of the first piece, when that piece is b followed by p's first. */
  lemma ConsOntoFirst(c: char, b: string, p: seq<string>, q: seq<string>)
    requires |p| >= 1 && q == [b + p[0]] + p[1..]
    ensures [[c] + q[0]] + q[1..] == [([c] + b) + p[0]] + p[1..]
  {
    assert q[0] == b + p[0];
    assert q[1..] == p[1..];
    assert [c] + (b + p[0]) == ([c] + b) + p[0];
  }

  /** A word without whitespace is a single piece. */
  lemma WsPiecesOfWord(v: string)
    requires NoRegexSpace(v)
    ensures WsPieces(v) == [v]
  {
    WsPiecesWord(v, []);
    assert v + [] == v;
    assert WsPieces([]) == [[]];
  }

  /** A space and then a word: an empty piece, then the word. */
  lemma WsPiecesSpaceWord(v: string)
    requires v != [] && NoRegexSpace(v)
    ensures WsPieces(" " + v) == [[], v]
  {
    var s := " " + v;
    assert s[0] == ' ' && s[1..] == v;
    assert SkipSpaces(v) == v;
    assert SkipSpaces(s) == v;
    WsPiecesOfWord(v);
  }

  /** "w v" splits into exactly [w, v] when neither word holds whitespace. */
  lemma SplitTwoWords(w: string, v: string)
    requires w != [] && v != [] && NoRegexSpace(w) && NoRegexSpace(v)
    ensures SplitWhitespace(w + " " + v) == [w, v]
  {
    var s := w + (" " + v);
    assert w + " " + v == s;
    assert s[|w|] == ' ';
    assert !NoRegexSpace(s);
    WsPiecesSpaceWord(v);
    WsPiecesWord(w, " " + v);
    assert w + [] == w;
    assert WsPieces(s) == [w, v];
  }

  /** "w " splits into [w] alone: the trailing empty piece is dropped. */
  lemma SplitWordSpace(w: string)
    requires w != [] && NoRegexSpace(w)
    ensures SplitWhitespace(w + " ") == [w]
  {
    var s := w + " ";
    assert s[|w|] == ' ';
    assert !NoRegexSpace(s);
    assert SkipSpaces(" ") == [];
    assert WsPieces(" ") == [[], []];
    WsPiecesWord(w, " ");
    assert w + [] == w;
    assert WsPieces(s) == [w, []];
    assert DropTrailingEmpty([w, []]) == DropTrailingEmpty([w]);
  }

  // ---------------------------------------------------------------- Integer.parseInt

  const MIN_INT: int := -0x8000_0000
  const MAX_INT: int := 0x7fff_ffff

  predicate IsDigit(c: char) { '0' <= c <= '9' }

  predicate AllDigits(s: string)
  {
    forall i :: 0 <= i < |s| ==> IsDigit(s[i])
  }

  function DigitValue(c: char): nat
    requires IsDigit(c)
  {
    c as int - '0' as int
  }

  /** The value of a run of decimal digits, most significant first. */
  function DigitsValue(s: string): nat
    requires AllDigits(s)
  {
    if s == [] then 0 else DigitsValue(s[..|s| - 1]) * 10 + DigitValue(s[|s| - 1])
  }

  /** Integer.parseInt(s, 10): an optional sign, at least one digit, a value in int range. */
  function ParseInt(s: string): (r: Option<int>)
    ensures r.Some? ==> MIN_INT <= r.value <= MAX_INT
    ensures r.Some? ==> s != [] && (AllDigits(s) || ((s[0] == '-' || s[0] == '+') && AllDigits(s[1..])))
  {
    if s == [] then None
    else
      var negative := s[0] == '-';
      var digits := if s[0] == '-' || s[0] == '+' then s[1..] else s;
      if digits == [] || !AllDigits(digits) then None
      else
        var v: int := if negative then -(DigitsValue(digits) as int) else DigitsValue(digits);
        if MIN_INT <= v <= MAX_INT then Some(v) else None
  }

  function DigitChar(d: nat): (c: char)
    requires d < 10
    ensures IsDigit(c) && DigitValue(c) == d
  {
    ('0' as int + d) as char
  }

  /** Integer.toString for a non-negative value. */
  function Decimal(n: nat): (r: string)
    ensures r != [] && AllDigits(r)
  {
    if n < 10 then [DigitChar(n)] else Decimal(n / 10) + [DigitChar(n % 10)]
  }

  lemma {:induction false} DecimalValue(n: nat)
    ensures DigitsValue(Decimal(n)) == n
  {
    if n >= 10 {
      DecimalValue(n / 10);
      var s := Decimal(n);
      assert s[..|s| - 1] == Decimal(n / 10);
    }
  }

  /** parseInt reads back what Integer.toString writes, for every non-negative int. */
  lemma ParseIntDecimal(n: nat)
    requires n <= MAX_INT
    ensures ParseInt(Decimal(n)) == Some(n)
  {
    DecimalValue(n);
    var s := Decimal(n);
    assert IsDigit(s[0]);
  }
}
