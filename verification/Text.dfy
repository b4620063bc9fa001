// The parts of Go's `strings` package the modelled code relies on. A Go
// string is a sequence of bytes; here it is a sequence of characters, one
// for each byte.
module Text {

  // `pat` stands at position `i` of `s`.
  predicate OccursAt(s: string, pat: string, i: nat) {
    i + |pat| <= |s| && s[i..i + |pat|] == pat
  }

  // strings.Contains
  predicate Contains(s: string, pat: string) {
    exists i :: 0 <= i <= |s| && OccursAt(s, pat, i)
  }

  // The text has the pattern between a beginning and an end.
  lemma {:induction false} ContainsIff(s: string, pat: string)
    ensures Contains(s, pat) <==> exists a, b :: s == a + pat + b
  {
    if Contains(s, pat) {
      var i :| 0 <= i <= |s| && OccursAt(s, pat, i);
      assert s == s[..i] + pat + s[i + |pat|..];
    }
    forall a, b | s == a + pat + b
      ensures OccursAt(s, pat, |a|)
    {
      assert s[|a|..|a| + |pat|] == pat;
    }
  }

  // strings.Split with a separator of one character.
  function Split(s: string, sep: char): (parts: seq<string>)
    ensures |parts| >= 1
  {
    if s == "" then [""]
    else
      var rest := Split(s[1..], sep);
      if s[0] == sep then [""] + rest else [[s[0]] + rest[0]] + rest[1..]
  }

  function Count(s: string, c: char): nat {
    if s == "" then 0 else (if s[0] == c then 1 else 0) + Count(s[1..], c)
  }

  lemma {:induction false} SplitLength(s: string, sep: char)
    ensures |Split(s, sep)| == Count(s, sep) + 1
  {
    if s != "" {
      SplitLength(s[1..], sep);
    }
  }

  lemma {:induction false} CountAbsent(s: string, c: char)
    ensures c !in s <==> Count(s, c) == 0
  {
    if s != "" {
      CountAbsent(s[1..], c);
      assert s == [s[0]] + s[1..];
    }
  }

  lemma {:induction false} CountConcat(a: string, b: string, c: char)
    ensures Count(a + b, c) == Count(a, c) + Count(b, c)
  {
    if a == "" {
      assert a + b == b;
    } else {
      assert (a + b)[1..] == a[1..] + b;
      CountConcat(a[1..], b, c);
    }
  }

  lemma {:induction false} SplitWithout(s: string, sep: char)
    requires sep !in s
    ensures Split(s, sep) == [s]
  {
    if s != "" {
      SplitWithout(s[1..], sep);
      assert [s[0]] + s[1..] == s;
    }
  }

  // Splitting cuts off the part before the first separator.
  lemma {:induction false} SplitAtFirst(a: string, b: string, sep: char)
    requires sep !in a
    ensures Split(a + [sep] + b, sep) == [a] + Split(b, sep)
  {
    var s := a + [sep] + b;
    if a == "" {
      assert s[1..] == b;
    } else {
      assert s[1..] == a[1..] + [sep] + b;
      SplitAtFirst(a[1..], b, sep);
      assert [a[0]] + a[1..] == a;
    }
  }

  // Two parts: one separator, and the parts are what it divides.
  lemma {:induction false} SplitInTwo(s: string, sep: char)
    requires |Split(s, sep)| == 2
    ensures var parts := Split(s, sep);
            s == parts[0] + [sep] + parts[1] && sep !in parts[0] && sep !in parts[1]
  {
    var rest := Split(s[1..], sep);
    if s[0] == sep {
      SplitInOne(s[1..], sep);
    } else {
      SplitInTwo(s[1..], sep);
    }
  }

  lemma {:induction false} SplitInThree(s: string, sep: char)
    requires |Split(s, sep)| == 3
    ensures var parts := Split(s, sep);
            && s == parts[0] + [sep] + parts[1] + [sep] + parts[2]
            && sep !in parts[0] && sep !in parts[1] && sep !in parts[2]
  {
    if s[0] == sep {
      SplitInTwo(s[1..], sep);
    } else {
      SplitInThree(s[1..], sep);
    }
  }

  lemma {:induction false} SplitInOne(s: string, sep: char)
    requires |Split(s, sep)| == 1
    ensures Split(s, sep) == [s] && sep !in s
  {
    if s != "" {
      SplitInOne(s[1..], sep);
      assert s == [s[0]] + s[1..];
    }
  }

  // What stands before the first separator is determined by the whole text.
  lemma {:induction false} CutAtFirst(a: string, b: string, x: string, y: string, sep: char)
    requires sep !in a && sep !in b && a + [sep] + x == b + [sep] + y
    ensures a == b && x == y
  {
    var s := a + [sep] + x;
    forall i | 0 <= i < |a|
      ensures s[i] != sep
    {
      assert s[i] == a[i];
    }
    forall i | 0 <= i < |b|
      ensures s[i] != sep
    {
      assert s[i] == b[i];
    }
    assert s[|a|] == sep && s[|b|] == sep;
    assert a == s[..|a|] && b == s[..|b|];
    assert x == s[|a| + 1..] && y == s[|b| + 1..];
  }

  // And what stands after the last one.
  lemma {:induction false} CutAtLast(a: string, b: string, x: string, y: string, sep: char)
    requires sep !in x && sep !in y && a + [sep] + x == b + [sep] + y
    ensures a == b && x == y
  {
    var s := a + [sep] + x;
    forall i | |a| < i < |s|
      ensures s[i] != sep
    {
      assert s[i] == x[i - |a| - 1];
    }
    forall i | |b| < i < |s|
      ensures s[i] != sep
    {
      assert s[i] == y[i - |b| - 1];
    }
    assert s[|a|] == sep && s[|b|] == sep;
    assert a == s[..|a|] && b == s[..|b|];
    assert x == s[|a| + 1..] && y == s[|b| + 1..];
  }

  // The first place of a character.
  lemma {:induction false} FirstOf(s: string, c: char) returns (i: nat)
    requires c in s
    ensures i < |s| && s[i] == c && c !in s[..i]
  {
    if s[0] == c {
      i := 0;
    } else {
      var j := FirstOf(s[1..], c);
      i := j + 1;
      assert s[..i] == [s[0]] + s[1..][..j];
    }
  }

  // White space of one byte, as unicode.IsSpace sees it.
  predicate IsSpace(c: char) {
    c == ' ' || '\t' <= c <= '\r'
  }

  // strings.TrimSpace
  function TrimSpace(s: string): string {
    TrimRight(TrimLeft(s))
  }

  function TrimLeft(s: string): string {
    if s != "" && IsSpace(s[0]) then TrimLeft(s[1..]) else s
  }

  function TrimRight(s: string): string {
    if s != "" && IsSpace(s[|s| - 1]) then TrimRight(s[..|s| - 1]) else s
  }

  // Tab, line feed, vertical tab, form feed, carriage return, blank.
  lemma {:induction false} SpaceIff(c: char)
    ensures IsSpace(c) <==> c as int in {9, 10, 11, 12, 13, 32}
  {
  }

  predicate AllSpace(s: string) {
    forall i :: 0 <= i < |s| ==> IsSpace(s[i])
  }

  // Trimming takes away the white space on both sides and nothing else.
  lemma {:induction false} TrimSpaceOf(left: string, s: string, right: string)
    requires AllSpace(left) && AllSpace(right)
    requires s == "" || (!IsSpace(s[0]) && !IsSpace(s[|s| - 1]))
    ensures TrimSpace(left + s + right) == s
  {
    TrimLeftOf(left, s + right);
    assert left + s + right == left + (s + right);
    if s == "" {
      assert s + right == right;
      TrimLeftOf(right, "");
      assert right + "" == right;
    } else {
      assert (s + right)[0] == s[0];
      TrimRightOf(s, right);
    }
  }

  lemma {:induction false} TrimLeftOf(left: string, s: string)
    requires AllSpace(left)
    ensures TrimLeft(left + s) == TrimLeft(s)
  {
    if left == "" {
      assert left + s == s;
    } else {
      assert (left + s)[1..] == left[1..] + s;
      TrimLeftOf(left[1..], s);
    }
  }

  lemma {:induction false} TrimRightOf(s: string, right: string)
    requires AllSpace(right) && s != "" && !IsSpace(s[|s| - 1])
    ensures TrimRight(s + right) == s
  {
    if right == "" {
      assert s + right == s;
    } else {
      var n := |right| - 1;
      assert (s + right)[..|s + right| - 1] == s + right[..n];
      TrimRightOf(s, right[..n]);
    }
  }
}
