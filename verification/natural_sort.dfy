/** The "natural" file-name order of image_finder.py (`natural_sort_key`):
    a name is cut into text and digit runs, text compares case-insensitively
    and digit runs compare by value, and keys compare the way Python compares
    lists. */
module NaturalSort {
  import opened Text
  import opened StableSort

  /** One element of a key: a lower-cased text run or the value of a digit run. */
  datatype Chunk = Text(text: string) | Num(value: nat)

  /** The parts joined back together. */
  function Concat(parts: seq<string>): string {
    if |parts| == 0 then "" else parts[0] + Concat(parts[1..])
  }

  /** `re.split(r'(\d+)', s)`: text and maximal digit runs alternately,
      starting and ending with a (possibly empty) text run. */
  function SplitDigits(s: string): (parts: seq<string>)
    ensures |parts| % 2 == 1
    decreases |s|
  {
    if |s| == 0 then [""]
    else
      var rest := SplitDigits(s[1..]);
      if !IsDigit(s[0]) then [[s[0]] + rest[0]] + rest[1..]
      else if rest[0] == "" && |rest| > 1 then ["", [s[0]] + rest[1]] + rest[2..]
      else ["", [s[0]]] + rest
  }

  lemma ConcatCons(a: string, parts: seq<string>)
    ensures Concat([a] + parts) == a + Concat(parts)
  {
    assert ([a] + parts)[1..] == parts;
  }

  lemma ConcatPrepend(c: char, a: string, t: seq<string>)
    ensures Concat([[c] + a] + t) == [c] + Concat([a] + t)
  {
    ConcatCons([c] + a, t);
    ConcatCons(a, t);
  }

  lemma JoinText(c: char, rest: seq<string>)
    requires |rest| > 0
    ensures Concat([[c] + rest[0]] + rest[1..]) == [c] + Concat(rest)
  {
    ConcatPrepend(c, rest[0], rest[1..]);
    assert [rest[0]] + rest[1..] == rest;
  }

  lemma JoinDigit(c: char, rest: seq<string>)
    requires |rest| > 1 && rest[0] == ""
    ensures Concat(["", [c] + rest[1]] + rest[2..]) == [c] + Concat(rest)
  {
    assert ["", [c] + rest[1]] + rest[2..] == [""] + ([[c] + rest[1]] + rest[2..]);
    ConcatCons("", [[c] + rest[1]] + rest[2..]);
    JoinText(c, rest[1..]);
    assert rest[1..][1..] == rest[2..];
    ConcatCons("", rest[1..]);
    assert [""] + rest[1..] == rest;
  }

  lemma JoinRun(c: char, rest: seq<string>)
    ensures Concat(["", [c]] + rest) == [c] + Concat(rest)
  {
    assert ["", [c]] + rest == [""] + ([[c]] + rest);
    ConcatCons("", [[c]] + rest);
    ConcatCons([c], rest);
  }

  /** Joining the parts gives the name back. */
  lemma {:induction false} SplitDigitsJoin(s: string)
    ensures Concat(SplitDigits(s)) == s
    decreases |s|
  {
    if |s| > 0 {
      var rest := SplitDigits(s[1..]);
      SplitDigitsJoin(s[1..]);
      if !IsDigit(s[0]) {
        JoinText(s[0], rest);
      } else if rest[0] == "" && |rest| > 1 {
        JoinDigit(s[0], rest);
      } else {
        JoinRun(s[0], rest);
      }
      assert s == [s[0]] + s[1..];
    }
  }

  /** Text runs sit at the even positions and hold no digit; digit runs sit
      at the odd positions and are non-empty; a text run strictly between two
      digit runs is non-empty, so the digit runs are maximal. */
  ghost predicate Alternates(parts: seq<string>) {
    && (forall k :: 0 <= k < |parts| && k % 2 == 0 ==> NoDigits(parts[k]))
    && (forall k :: 0 <= k < |parts| && k % 2 == 1 ==> |parts[k]| > 0 && AllDigits(parts[k]))
    && (forall k :: 0 < k < |parts| - 1 && k % 2 == 0 ==> |parts[k]| > 0)
  }

  lemma AlternatesText(c: char, rest: seq<string>)
    requires !IsDigit(c) && |rest| % 2 == 1 && Alternates(rest)
    ensures Alternates([[c] + rest[0]] + rest[1..])
  {
    var parts := [[c] + rest[0]] + rest[1..];
    assert forall k :: 0 < k < |parts| ==> parts[k] == rest[k];
  }

  lemma AlternatesDigit(c: char, rest: seq<string>)
    requires IsDigit(c) && |rest| % 2 == 1 && |rest| > 1 && rest[0] == "" && Alternates(rest)
    ensures Alternates(["", [c] + rest[1]] + rest[2..])
  {
    var parts := ["", [c] + rest[1]] + rest[2..];
    assert forall k :: 1 < k < |parts| ==> parts[k] == rest[k];
  }

  lemma AlternatesRun(c: char, rest: seq<string>)
    requires IsDigit(c) && |rest| % 2 == 1 && (rest[0] != "" || |rest| == 1) && Alternates(rest)
    ensures Alternates(["", [c]] + rest)
  {
    var parts := ["", [c]] + rest;
    assert forall k :: 1 < k < |parts| ==> parts[k] == rest[k - 2];
  }

  lemma {:induction false} SplitDigitsAlternates(s: string)
    ensures Alternates(SplitDigits(s))
    decreases |s|
  {
    if |s| > 0 {
      var rest := SplitDigits(s[1..]);
      SplitDigitsAlternates(s[1..]);
      if !IsDigit(s[0]) {
        AlternatesText(s[0], rest);
      } else if rest[0] == "" && |rest| > 1 {
        AlternatesDigit(s[0], rest);
      } else {
        AlternatesRun(s[0], rest);
      }
    }
  }

  /** `natural_sort_key(s)`: text runs lower-cased, digit runs as integers. */
  function NaturalKey(s: string): (key: seq<Chunk>)
    ensures |key| == |SplitDigits(s)| && |key| % 2 == 1
    ensures forall i :: 0 <= i < |key| ==> (key[i].Text? <==> i % 2 == 0)
  {
    var parts := SplitDigits(s);
    SplitDigitsAlternates(s);
    seq(|parts|, i requires 0 <= i < |parts| =>
      if i % 2 == 0 then Text(Lower(parts[i])) else Num(DecimalValue(parts[i])))
  }

  /** Two keys hold a string, or an int, at the same positions, so comparing
      keys never compares an int with a string (which Python would reject). */
  lemma KeysAlign(a: string, b: string)
    ensures var ka, kb := NaturalKey(a), NaturalKey(b);
            forall i :: 0 <= i < |ka| && i < |kb| ==> (ka[i].Text? <==> kb[i].Text?)
    ensures NaturalKey(a)[0].Text? && NaturalKey(a)[|NaturalKey(a)| - 1].Text?
  {
  }

  lemma SplitDigitRun(d: char)
    requires IsDigit(d)
    ensures SplitDigits([d]) == ["", [d], ""]
  {
    assert [d][1..] == "";
  }

  lemma SplitExampleA2()
    ensures SplitDigits("a2") == ["a", "2", ""]
  {
    SplitDigitRun('2');
    assert "a2"[1..] == ['2'];
    var rest := SplitDigits("2");
    assert "a2"[0] == 'a' && !IsDigit('a');
    assert ['a'] + rest[0] == "a" && rest[1..] == ["2", ""];
  }

  lemma SplitExampleA10()
    ensures SplitDigits("a10") == ["a", "10", ""]
  {
    SplitDigitRun('0');
    assert SplitDigits("10") == ["", "10", ""] by {
      var rest := SplitDigits("0");
      assert "10"[1..] == ['0'];
      assert "10"[0] == '1' && IsDigit('1');
      assert ['1'] + rest[1] == "10" && rest[2..] == [""];
    }
    var rest := SplitDigits("10");
    assert "a10"[1..] == "10";
    assert "a10"[0] == 'a' && !IsDigit('a');
    assert ['a'] + rest[0] == "a" && rest[1..] == ["10", ""];
  }

  /** A worked example of why the order is "natural": "a2" comes before
      "a10" although, as plain strings, "a10" comes first. */
  lemma NaturalOrderExample()
    ensures NaturalKey("a2") == [Text("a"), Num(2), Text("")]
    ensures NaturalKey("a10") == [Text("a"), Num(10), Text("")]
    ensures KeyLess(NaturalKey("a2"), NaturalKey("a10"))
    ensures StringLess("a10", "a2")
  {
    SplitExampleA2();
    SplitExampleA10();
    assert DecimalValue("10") == 10 by {
      assert "10"[..1] == "1" && "1"[..0] == "";
    }
    assert DecimalValue("2") == 2 by {
      assert "2"[..0] == "";
    }
    assert Lower("a") == "a" && Lower("") == "";
    var k2, k10 := NaturalKey("a2"), NaturalKey("a10");
    assert k2[1..][0] == Num(2) && k10[1..][0] == Num(10);
  }

  // ---------------------------------------------------------------------
  // How keys compare
  // ---------------------------------------------------------------------

  /** Python's sequence comparison: the first differing element decides,
      and a proper prefix comes first. */
  function LexLess<T(==)>(a: seq<T>, b: seq<T>, less: (T, T) -> bool): (r: bool)
    ensures |a| < |b| && a == b[..|a|] ==> r
    ensures |b| <= |a| && b == a[..|b|] ==> !r
  {
    if |a| == 0 then |b| > 0
    else if |b| == 0 then false
    else if a[0] == b[0] then LexLess(a[1..], b[1..], less)
    else less(a[0], b[0])
  }

  lemma {:induction false} LexIrreflexive<T>(a: seq<T>, less: (T, T) -> bool)
    ensures !LexLess(a, a, less)
  {
    if |a| > 0 {
      LexIrreflexive(a[1..], less);
    }
  }

  lemma {:induction false} LexTransitive<T(!new)>(a: seq<T>, b: seq<T>, c: seq<T>, less: (T, T) -> bool)
    requires StrictTotal(less)
    requires LexLess(a, b, less) && LexLess(b, c, less)
    ensures LexLess(a, c, less)
  {
    if |a| > 0 && |b| > 0 && |c| > 0 && a[0] == b[0] && b[0] == c[0] {
      LexTransitive(a[1..], b[1..], c[1..], less);
    } else if |a| > 0 && |b| > 0 && |c| > 0 && a[0] != b[0] && b[0] != c[0] {
      assert less(a[0], b[0]) && less(b[0], c[0]);
      assert less(a[0], c[0]);
    }
  }

  lemma {:induction false} LexConnected<T(!new)>(a: seq<T>, b: seq<T>, less: (T, T) -> bool)
    requires StrictTotal(less)
    requires a != b
    ensures LexLess(a, b, less) || LexLess(b, a, less)
  {
    if |a| > 0 && |b| > 0 && a[0] == b[0] {
      assert a == [a[0]] + a[1..] && b == [b[0]] + b[1..];
      LexConnected(a[1..], b[1..], less);
    }
  }

  /** The lexicographic extension of a strict total order is one. */
  lemma LexStrictTotal<T(!new)>(less: (T, T) -> bool)
    requires StrictTotal(less)
    ensures StrictTotal((a: seq<T>, b: seq<T>) => LexLess(a, b, less))
  {
    forall a: seq<T>
      ensures !LexLess(a, a, less)
    {
      LexIrreflexive(a, less);
    }
    forall a: seq<T>, b: seq<T>, c: seq<T> | LexLess(a, b, less) && LexLess(b, c, less)
      ensures LexLess(a, c, less)
    {
      LexTransitive(a, b, c, less);
    }
    forall a: seq<T>, b: seq<T> | a != b
      ensures LexLess(a, b, less) || LexLess(b, a, less)
    {
      LexConnected(a, b, less);
    }
  }

  function CharLess(x: char, y: char): bool { x < y }

  /** Python's `str` order: by code point. */
  function StringLess(a: string, b: string): bool {
    LexLess(a, b, CharLess)
  }

  /** Element order within keys. Text runs compare as strings and numbers as
      integers; a number is put before a text run only to make the order
      total, since aligned keys never compare the two. */
  function ChunkLess(a: Chunk, b: Chunk): bool {
    match (a, b)
    case (Text(s), Text(t)) => StringLess(s, t)
    case (Num(m), Num(n)) => m < n
    case (Num(_), Text(_)) => true
    case (Text(_), Num(_)) => false
  }

  /** Comparison of two natural keys. */
  function KeyLess(a: seq<Chunk>, b: seq<Chunk>): (r: bool)
    ensures |a| < |b| && a == b[..|a|] ==> r
    ensures |b| <= |a| && b == a[..|b|] ==> !r
  {
    LexLess(a, b, ChunkLess)
  }

  lemma ChunkStrictTotal()
    ensures StrictTotal(ChunkLess)
  {
    assert StrictTotal(CharLess);
    LexStrictTotal(CharLess);
    var strings := (a: string, b: string) => LexLess(a, b, CharLess);
    assert forall a, b :: StringLess(a, b) == strings(a, b);
  }

  /** Natural keys are totally ordered, so sorting by them is well defined. */
  lemma KeyStrictTotal()
    ensures StrictTotal(KeyLess)
  {
    ChunkStrictTotal();
    LexStrictTotal(ChunkLess);
    var keys := (a: seq<Chunk>, b: seq<Chunk>) => LexLess(a, b, ChunkLess);
    assert forall a, b :: KeyLess(a, b) == keys(a, b);
  }
}
