/** Python string operations the monitor relies on, stated over `seq<char>`. */
module Text {

  /** Number of occurrences of `d` in `s`. */
  function Count(s: string, d: char): (n: nat)
    ensures n <= |s|
    ensures n == 0 <==> d !in s
  {
    if |s| == 0 then 0
    else (if s[0] == d then 1 else 0) + Count(s[1..], d)
  }

  /** The inverse of `Split`: the fields glued back together with `d` between them. */
  function Join(fields: seq<string>, d: char): string
  {
    if |fields| == 0 then ""
    else if |fields| == 1 then fields[0]
    else fields[0] + [d] + Join(fields[1..], d)
  }

  /** Python's `s.split(d)`: empty fields are kept, so `n` delimiters give `n + 1` fields,
      and no field holds the delimiter. */
  function Split(s: string, d: char): (r: seq<string>)
    ensures |r| == Count(s, d) + 1
    ensures forall i :: 0 <= i < |r| ==> d !in r[i]
    decreases |s|
  {
    if |s| == 0 then [""]
    else
      var rest := Split(s[1..], d);
      if s[0] == d then [""] + rest
      else [[s[0]] + rest[0]] + rest[1..]
  }

  /** Joining the fields of a split with the delimiter gives the string back. */
  lemma {:induction false} JoinSplit(s: string, d: char)
    ensures Join(Split(s, d), d) == s
    decreases |s|
  {
    if |s| > 0 {
      var rest := Split(s[1..], d);
      JoinSplit(s[1..], d);
      if s[0] != d && |rest| >= 2 {
        assert Join(rest, d) == rest[0] + [d] + Join(rest[1..], d);
        var r := Split(s, d);
        assert r[1..] == rest[1..];
      }
    }
  }

  /** A string without the delimiter is a single field. */
  lemma {:induction false} SplitNoDelimiter(s: string, d: char)
    requires d !in s
    ensures Split(s, d) == [s]
  {
    var r := Split(s, d);
    assert |r| == 1 by { assert Count(s, d) == 0; }
    JoinSplit(s, d);
    assert Join(r, d) == r[0];
  }

  /** Splitting at a delimiter splits the two sides independently. */
  lemma {:induction false} SplitAround(a: string, d: char, b: string)
    ensures Split(a + [d] + b, d) == Split(a, d) + Split(b, d)
    decreases |a|
  {
    var s := a + [d] + b;
    if |a| == 0 {
      assert s[1..] == b;
    } else {
      assert s[1..] == a[1..] + [d] + b;
      SplitAround(a[1..], d, b);
    }
  }

  /** Splitting a joined list of delimiter-free fields gives the fields back. */
  lemma {:induction false} SplitJoin(fields: seq<string>, d: char)
    requires |fields| >= 1
    requires forall i :: 0 <= i < |fields| ==> d !in fields[i]
    ensures Split(Join(fields, d), d) == fields
    decreases |fields|
  {
    SplitNoDelimiter(fields[0], d);
    if |fields| > 1 {
      SplitJoin(fields[1..], d);
      SplitAround(fields[0], d, Join(fields[1..], d));
      assert fields == [fields[0]] + fields[1..];
    }
  }

  /** The number of leading characters of `s` that belong to `cs`. */
  function Lead(s: string, cs: set<char>): (n: nat)
    ensures n <= |s|
    ensures forall k :: 0 <= k < n ==> s[k] in cs
    ensures n < |s| ==> s[n] !in cs
  {
    if |s| == 0 || s[0] !in cs then 0 else 1 + Lead(s[1..], cs)
  }

  /** The number of trailing characters of `s` that belong to `cs`. */
  function Trail(s: string, cs: set<char>): (n: nat)
    ensures n <= |s|
    ensures forall k :: |s| - n <= k < |s| ==> s[k] in cs
    ensures n < |s| ==> s[|s| - n - 1] !in cs
  {
    if |s| == 0 || s[|s| - 1] !in cs then 0 else 1 + Trail(s[..|s| - 1], cs)
  }

  /** Python's `s.strip(chars)`: the longest infix of `s`, starting after the leading
      run of characters from `cs`, whose outside lies entirely in `cs` and whose ends do not. */
  function Strip(s: string, cs: set<char>): (r: string)
    ensures Lead(s, cs) + |r| <= |s|
    ensures forall k :: 0 <= k < |r| ==> r[k] == s[Lead(s, cs) + k]
    ensures forall k :: 0 <= k < Lead(s, cs) ==> s[k] in cs
    ensures forall k :: Lead(s, cs) + |r| <= k < |s| ==> s[k] in cs
    ensures |r| > 0 ==> r[0] !in cs && r[|r| - 1] !in cs
  {
    var i := Lead(s, cs);
    var t := Trail(s[i..], cs);
    s[i..|s| - t]
  }

  /** `sub` occurs in `s` starting at index `i`. */
  predicate OccursAt(s: string, sub: string, i: int)
  {
    0 <= i && i + |sub| <= |s| && s[i..i + |sub|] == sub
  }

  /** Python's `sub in s`: some index of `s` starts an occurrence of `sub`. */
  function Contains(s: string, sub: string): (b: bool)
    ensures b <==> exists i :: OccursAt(s, sub, i)
    decreases |s|
  {
    if sub <= s then
      assert OccursAt(s, sub, 0);
      true
    else if |s| == 0 then false
    else
      var b := Contains(s[1..], sub);
      assert forall i :: OccursAt(s[1..], sub, i) <==> OccursAt(s, sub, i + 1) by {
        forall i ensures OccursAt(s[1..], sub, i) <==> OccursAt(s, sub, i + 1) {
          if 0 <= i && i + |sub| <= |s[1..]| {
            assert s[1..][i..i + |sub|] == s[i + 1..i + 1 + |sub|];
          }
        }
      }
      assert !OccursAt(s, sub, 0);
      assert forall i :: OccursAt(s, sub, i) ==> i == 0 || OccursAt(s[1..], sub, i - 1);
      b
  }

  /** An occurrence in one part of a concatenation is an occurrence in the whole. */
  lemma {:induction false} ContainsConcat(a: string, b: string, sub: string)
    requires Contains(a, sub) || Contains(b, sub)
    ensures Contains(a + b, sub)
  {
    if Contains(a, sub) {
      var i :| OccursAt(a, sub, i);
      assert (a + b)[i..i + |sub|] == a[i..i + |sub|];
      assert OccursAt(a + b, sub, i);
    } else {
      var i :| OccursAt(b, sub, i);
      assert (a + b)[|a| + i..|a| + i + |sub|] == b[i..i + |sub|];
      assert OccursAt(a + b, sub, |a| + i);
    }
  }

  /** A string contains itself. */
  lemma ContainsSelf(s: string)
    ensures Contains(s, s)
  {
    assert OccursAt(s, s, 0);
  }

  /** ASCII lower-casing of one character. */
  function LowerChar(c: char): char
  {
    if 'A' <= c <= 'Z' then (c as int + 32) as char else c
  }

  /** Lower-casing of a string, character by character, as far as ASCII goes. */
  function Lower(s: string): (r: string)
    ensures |r| == |s|
    ensures forall k :: 0 <= k < |s| ==> r[k] == LowerChar(s[k])
  {
    if |s| == 0 then "" else [LowerChar(s[0])] + Lower(s[1..])
  }

  /** The operator's answer `a` lower-cases to "y" exactly when it is "y" or "Y". */
  lemma LowerIsY(a: string)
    ensures Lower(a) == "y" <==> a == "y" || a == "Y"
  {
    if Lower(a) == "y" {
      assert |a| == 1 && LowerChar(a[0]) == 'y';
      assert a == [a[0]];
    }
  }
}
