// The string operations the rule syntax and the store keys are written with:
// strings.Fields, strings.Split on one character, strings.ToLower, strconv.Atoi and sort.Strings.

module Text {
  import opened Options

  // ---- strings.Split with a one-character separator ----

  function IndexOf(s: string, c: char): (i: nat)
    ensures i <= |s| && c !in s[..i]
    ensures i < |s| ==> s[i] == c
    ensures i == |s| <==> c !in s
  {
    if s == [] then 0
    else if s[0] == c then 0
    else
      var i := 1 + IndexOf(s[1..], c);
      assert s[..i] == [s[0]] + s[1..][..i - 1];
      assert s == [s[0]] + s[1..];
      i
  }

  function Split(s: string, sep: char): (parts: seq<string>)
    ensures |parts| >= 1
    ensures forall part :: part in parts ==> sep !in part
    decreases |s|
  {
    var i := IndexOf(s, sep);
    if i == |s| then [s] else [s[..i]] + Split(s[i + 1..], sep)
  }

  // Splitting undoes joining at the first separator.
  lemma SplitAt(a: string, sep: char, b: string)
    requires sep !in a
    ensures Split(a + [sep] + b, sep) == [a] + Split(b, sep)
  {
    var s := a + [sep] + b;
    IndexOfUnique(s, sep, |a|);
    assert s[..|a|] == a && s[|a| + 1..] == b;
  }

  lemma IndexOfUnique(s: string, c: char, n: nat)
    requires n < |s| && s[n] == c && c !in s[..n]
    ensures IndexOf(s, c) == n
  {
    if n > 0 {
      assert s[0] in s[..n];
      assert s[..n] == [s[0]] + s[1..][..n - 1];
      IndexOfUnique(s[1..], c, n - 1);
    }
  }

  lemma SplitNone(s: string, sep: char)
    requires sep !in s
    ensures Split(s, sep) == [s]
  {}

  // ---- strings.Fields over the white space of Latin-1 ----

  predicate IsSpace(c: char) {
    c == ' ' || '\t' <= c <= '\r' || c == 0x85 as char || c == 0xA0 as char
  }

  predicate Word(s: string) {
    s != [] && forall c :: c in s ==> !IsSpace(c)
  }

  function WordLength(s: string): (n: nat)
    ensures n <= |s|
    ensures forall i :: 0 <= i < n ==> !IsSpace(s[i])
    ensures n < |s| ==> IsSpace(s[n])
  {
    if s == [] || IsSpace(s[0]) then 0 else 1 + WordLength(s[1..])
  }

  function Fields(s: string): (words: seq<string>)
    ensures forall w :: w in words ==> Word(w)
    decreases |s|
  {
    if s == [] then []
    else if IsSpace(s[0]) then Fields(s[1..])
    else [s[..WordLength(s)]] + Fields(s[WordLength(s)..])
  }

  function Join(words: seq<string>): string {
    if words == [] then ""
    else if |words| == 1 then words[0]
    else words[0] + " " + Join(words[1..])
  }

  lemma WordLengthOf(w: string, rest: string)
    requires forall c :: c in w ==> !IsSpace(c)
    requires rest == [] || IsSpace(rest[0])
    ensures WordLength(w + rest) == |w|
  {
    if w == [] {
      assert w + rest == rest;
    } else {
      assert (w + rest)[1..] == w[1..] + rest;
      WordLengthOf(w[1..], rest);
    }
  }

  lemma FieldsOfWord(w: string, rest: string)
    requires Word(w) && (rest == [] || IsSpace(rest[0]))
    ensures Fields(w + rest) == [w] + Fields(rest)
  {
    WordLengthOf(w, rest);
    assert (w + rest)[..|w|] == w && (w + rest)[|w|..] == rest;
    assert (w + rest)[0] == w[0];
  }

  // Blanks, tabs and line ends separate words, as many as there are.
  lemma SpaceSeparates(w: string, c: char, rest: string)
    requires Word(w) && c in [' ', '\t', '\n', '\r']
    ensures Fields(w + [c] + rest) == [w] + Fields(rest) && Fields([c] + rest) == Fields(rest)
  {
    assert w + [c] + rest == w + ([c] + rest);
    FieldsOfWord(w, [c] + rest);
    assert ([c] + rest)[1..] == rest;
  }

  lemma {:induction false} FieldsOfJoin(words: seq<string>)
    requires forall w :: w in words ==> Word(w)
    ensures Fields(Join(words)) == words
  {
    if words != [] {
      var rest := if |words| == 1 then "" else " " + Join(words[1..]);
      assert Word(words[0]) && Join(words) == words[0] + rest;
      FieldsOfWord(words[0], rest);
      if |words| > 1 {
        assert rest[1..] == Join(words[1..]);
        FieldsOfJoin(words[1..]);
      }
      assert words == [words[0]] + words[1..];
    }
  }

  // ---- strings.ToLower on ASCII ----

  function ToLower(s: string): (r: string)
    ensures |r| == |s|
  {
    seq(|s|, i requires 0 <= i < |s| => if 'A' <= s[i] <= 'Z' then s[i] - 'A' + 'a' else s[i])
  }

  // ---- strconv.Atoi, and the decimal rendering it undoes ----

  predicate IsDigit(c: char) { '0' <= c <= '9' }

  function DigitValue(c: char): nat
    requires IsDigit(c)
  {
    (c - '0') as nat
  }

  predicate AllDigits(s: string) { forall c :: c in s ==> IsDigit(c) }

  function Decimal(s: string): nat
    requires AllDigits(s)
  {
    if s == [] then 0 else 10 * Decimal(s[..|s| - 1]) + DigitValue(s[|s| - 1])
  }

  const MAX_INT := 0x7FFF_FFFF_FFFF_FFFF

  // None is strconv's syntax or range error, for a 64-bit int.
  function Atoi(s: string): (r: Option<int>)
    ensures r.Some? && (s == "" || s[0] != '-') ==> r.value >= 0
  {
    var negative := s != "" && s[0] == '-';
    var digits := if s != "" && (s[0] == '-' || s[0] == '+') then s[1..] else s;
    if digits == "" || !AllDigits(digits) then None
    else
      var v: int := Decimal(digits);
      if v > (if negative then MAX_INT + 1 else MAX_INT) then None
      else Some(if negative then -v else v)
  }

  function Show(n: nat): (s: string)
    ensures s != "" && AllDigits(s) && Decimal(s) == n
  {
    var digit := ['0' + (n % 10) as char];
    if n < 10 then
      assert digit[..0] == "";
      digit
    else
      var s := Show(n / 10) + digit;
      assert s[..|s| - 1] == Show(n / 10);
      s
  }

  lemma AtoiOfShow(n: nat)
    requires n <= MAX_INT
    ensures Atoi(Show(n)) == Some(n)
  {
    var s := Show(n);
    assert s[0] in s;
  }

  // ---- sort.Strings ----

  predicate Le(a: string, b: string) {
    a == [] || (b != [] && (a[0] < b[0] || (a[0] == b[0] && Le(a[1..], b[1..]))))
  }

  lemma LeTotal(a: string, b: string)
    ensures Le(a, b) || Le(b, a)
  {}

  lemma LeAntisymmetric(a: string, b: string)
    requires Le(a, b) && Le(b, a)
    ensures a == b
  {
    if a != [] && b != [] {
      LeAntisymmetric(a[1..], b[1..]);
      assert a == [a[0]] + a[1..] && b == [b[0]] + b[1..];
    }
  }

  lemma LeTransitive(a: string, b: string, c: string)
    requires Le(a, b) && Le(b, c)
    ensures Le(a, c)
  {}

  predicate Sorted(s: seq<string>) {
    forall i, j :: 0 <= i < j < |s| ==> Le(s[i], s[j])
  }

  function InsertString(x: string, s: seq<string>): (r: seq<string>)
    requires Sorted(s)
    ensures Sorted(r) && multiset(r) == multiset{x} + multiset(s)
  {
    if s == [] then [x]
    else if Le(x, s[0]) then
      PrependSorted(x, s);
      [x] + s
    else
      var tail := InsertString(x, s[1..]);
      assert s == [s[0]] + s[1..];
      HeadBelow(x, s, tail);
      PrependSorted(s[0], tail);
      [s[0]] + tail
  }

  lemma PrependSorted(x: string, s: seq<string>)
    requires Sorted(s) && (s != [] ==> Le(x, s[0]))
    ensures Sorted([x] + s)
  {
    hide Le;
    var r := [x] + s;
    forall i, j | 0 <= i < j < |r| ensures Le(r[i], r[j]) {
      if i == 0 && j > 1 { LeTransitive(x, s[0], s[j - 1]); }
    }
  }

  lemma HeadBelow(x: string, s: seq<string>, tail: seq<string>)
    requires s != [] && Sorted(s) && !Le(x, s[0]) && multiset(tail) == multiset{x} + multiset(s[1..])
    ensures tail != [] ==> Le(s[0], tail[0])
  {
    hide Le;
    LeTotal(x, s[0]);
    if tail != [] {
      assert tail[0] in multiset(tail);
      if tail[0] != x { assert tail[0] in multiset(s[1..]); }
    }
  }

  function SortStrings(s: seq<string>): (r: seq<string>)
    ensures Sorted(r) && multiset(r) == multiset(s)
  {
    if s == [] then []
    else
      assert s == [s[0]] + s[1..];
      InsertString(s[0], SortStrings(s[1..]))
  }

  // An ordering of a collection is unique, so sort.Strings is a function of the collection.
  lemma {:induction false} SortedUnique(a: seq<string>, b: seq<string>)
    requires Sorted(a) && Sorted(b) && multiset(a) == multiset(b)
    ensures a == b
  {
    hide Le;
    if a == [] {
      assert |multiset(b)| == 0;
    } else {
      HeadIsLeast(a, b);
      HeadIsLeast(b, a);
      LeAntisymmetric(a[0], b[0]);
      SameTails(a, b);
      SortedUnique(a[1..], b[1..]);
    }
  }

  lemma SameTails(a: seq<string>, b: seq<string>)
    requires a != [] && b != [] && a[0] == b[0] && multiset(a) == multiset(b)
    ensures multiset(a[1..]) == multiset(b[1..])
    ensures a[1..] == b[1..] ==> a == b
  {
    assert a == [a[0]] + a[1..] && b == [b[0]] + b[1..];
    assert multiset(a[1..]) == multiset(a) - multiset{a[0]};
    assert multiset(b[1..]) == multiset(b) - multiset{b[0]};
  }

  lemma HeadIsLeast(a: seq<string>, b: seq<string>)
    requires a != [] && Sorted(a) && multiset(a) == multiset(b)
    ensures b != [] && Le(a[0], b[0])
  {
    assert a[0] in multiset(b);
    assert b[0] in multiset(a);
    var j :| 0 <= j < |a| && a[j] == b[0];
    LeTotal(a[0], a[0]);
  }

  lemma SortIgnoresOrder(a: seq<string>, b: seq<string>)
    requires multiset(a) == multiset(b)
    ensures SortStrings(a) == SortStrings(b)
  {
    SortedUnique(SortStrings(a), SortStrings(b));
  }

  // Any two duplicate-free lists of one set of strings hold the same strings as often, and are sorted
  // to one list.
  lemma SortOfSet(a: seq<string>, b: seq<string>)
    requires forall i, j :: 0 <= i < j < |a| ==> a[i] != a[j]
    requires forall i, j :: 0 <= i < j < |b| ==> b[i] != b[j]
    requires forall x :: x in a <==> x in b
    ensures multiset(a) == multiset(b)
    ensures SortStrings(a) == SortStrings(b)
  {
    forall x ensures multiset(a)[x] == multiset(b)[x] {
      CountOfDistinct(a, x);
      CountOfDistinct(b, x);
    }
    assert multiset(a) == multiset(b);
    SortIgnoresOrder(a, b);
  }

  lemma CountOfDistinct(s: seq<string>, x: string)
    requires forall i, j :: 0 <= i < j < |s| ==> s[i] != s[j]
    ensures multiset(s)[x] == if x in s then 1 else 0
  {
    if s != [] {
      assert s == [s[0]] + s[1..];
      CountOfDistinct(s[1..], x);
      assert s[0] !in s[1..];
    }
  }
}
