/** The JavaScript string primitives the core uses, with JavaScript's semantics:
    `startsWith`, `indexOf` (-1 when absent), `replace` with a string pattern (first
    occurrence only), `slice` (negative indices count from the end, indices are clamped),
    `toLowerCase` (ASCII letters only), `replaceAll` of one character and `split` on one
    character. */
module JsText {

  /** `s.startsWith(p)`: `p` is found at index 0. */
  predicate StartsWith(s: string, p: string)
    ensures StartsWith(s, p) <==> IndexOf(s, p) == 0
  {
    assert |p| <= |s| ==> s[0..|p|] == s[..|p|];
    |p| <= |s| && s[..|p|] == p
  }

  /** `p` occurs in `s` starting at index `j`. */
  predicate OccursAt(s: string, p: string, j: int) {
    0 <= j && j + |p| <= |s| && s[j..j + |p|] == p
  }

  predicate Contains(s: string, p: string) {
    exists j | 0 <= j <= |s| :: OccursAt(s, p, j)
  }

  lemma OccursAtShift(s: string, p: string, j: int)
    requires |s| > 0 && 1 <= j
    ensures OccursAt(s, p, j) <==> OccursAt(s[1..], p, j - 1)
  {
    if j + |p| <= |s| {
      assert s[1..][j - 1..j - 1 + |p|] == s[j..j + |p|];
    }
  }

  /** `s.indexOf(p)`: the first index at which `p` occurs, -1 when it does not occur. */
  function IndexOf(s: string, p: string): (r: int)
    ensures r == -1 || 0 <= r <= |s| - |p|
    ensures r >= 0 ==> OccursAt(s, p, r)
    ensures forall j :: 0 <= j && (r < 0 || j < r) ==> !OccursAt(s, p, j)
    decreases |s|
  {
    if |s| < |p| then -1
    else if s[..|p|] == p then 0
    else
      var k := IndexOf(s[1..], p);
      assert !OccursAt(s, p, 0) by { assert s[0..|p|] == s[..|p|]; }
      assert forall j :: 1 <= j ==> (OccursAt(s, p, j) <==> OccursAt(s[1..], p, j - 1)) by {
        forall j | 1 <= j { OccursAtShift(s, p, j); }
      }
      if k < 0 then -1 else k + 1
  }

  /** An occurrence with none before it is what `indexOf` finds. */
  lemma IndexOfFirst(s: string, p: string, k: int)
    requires OccursAt(s, p, k)
    requires forall j :: 0 <= j < k ==> !OccursAt(s, p, j)
    ensures IndexOf(s, p) == k
  {
  }

  lemma OccursAtChar(s: string, c: char, j: int)
    ensures OccursAt(s, [c], j) <==> 0 <= j < |s| && s[j] == c
  {
    if 0 <= j < |s| {
      assert s[j..j + 1] == [s[j]];
    }
  }

  /** For a one-character pattern `indexOf` is the position of the first such character. */
  lemma IndexOfChar(s: string, c: char, k: int)
    requires 0 <= k < |s| && s[k] == c && c !in s[..k]
    ensures IndexOf(s, [c]) == k
  {
    OccursAtChar(s, c, k);
    forall j | 0 <= j < k ensures !OccursAt(s, [c], j) {
      OccursAtChar(s, c, j);
      assert s[j] == s[..k][j];
    }
    IndexOfFirst(s, [c], k);
  }

  /** A character that occurs is found at its first appearance. */
  lemma IndexOfCharFound(s: string, c: char)
    requires c in s
    ensures 0 <= IndexOf(s, [c]) < |s|
    ensures s[IndexOf(s, [c])] == c && c !in s[..IndexOf(s, [c])]
  {
    var i :| 0 <= i < |s| && s[i] == c;
    OccursAtChar(s, c, i);
    var k := IndexOf(s, [c]);
    OccursAtChar(s, c, k);
    forall j | 0 <= j < k ensures s[..k][j] != c {
      OccursAtChar(s, c, j);
    }
  }

  lemma IndexOfCharAbsent(s: string, c: char)
    requires c !in s
    ensures IndexOf(s, [c]) == -1
  {
    forall j ensures !OccursAt(s, [c], j) {
      OccursAtChar(s, c, j);
    }
  }

  /** An occurrence in `a + b` that starts inside `b` is an occurrence in `b`. */
  lemma OccursInSuffix(a: string, b: string, p: string, j: int)
    requires j >= |a|
    ensures OccursAt(a + b, p, j) <==> OccursAt(b, p, j - |a|)
  {
    if j + |p| <= |a + b| {
      assert (a + b)[j..j + |p|] == b[j - |a|..j - |a| + |p|];
    }
  }

  /** An occurrence of `p` cannot begin at a character of `a` other than `p`'s first. */
  lemma NoOccurrenceInPrefix(a: string, b: string, p: string)
    requires |p| > 0 && p[0] !in a
    ensures forall j :: 0 <= j < |a| ==> !OccursAt(a + b, p, j)
  {
    forall j | 0 <= j < |a| ensures !OccursAt(a + b, p, j) {
      if j + |p| <= |a + b| {
        assert (a + b)[j..j + |p|][0] == a[j];
      }
    }
  }

  /** `s.replace(p, q)` with a string pattern: only the first occurrence is replaced. */
  function Replace(s: string, p: string, q: string): (r: string)
    ensures !Contains(s, p) ==> r == s
    ensures forall c :: c in r ==> c in s || c in q
  {
    var i := IndexOf(s, p);
    if i < 0 then s
    else
      assert forall c :: c in s[..i] || c in s[i + |p|..] ==> c in s;
      s[..i] + q + s[i + |p|..]
  }

  lemma ReplaceAt(s: string, p: string, q: string, k: int)
    requires IndexOf(s, p) == k && k >= 0
    ensures Replace(s, p, q) == s[..k] + q + s[k + |p|..]
  {
  }

  /** How `slice` reads one of its index arguments for a string of length `len`. */
  function RelativeIndex(i: int, len: nat): (r: nat)
    ensures r <= len
    ensures 0 <= i <= len ==> r == i
    ensures -(len as int) <= i < 0 ==> r as int == len as int + i
  {
    if i < 0 then (if len + i < 0 then 0 else len + i)
    else if i > len then len
    else i
  }

  /** `s.slice(start, end)` */
  function Slice(s: string, start: int, end: int): (r: string)
    ensures |r| <= |s|
    ensures forall c :: c in r ==> c in s
  {
    var lo, hi := RelativeIndex(start, |s|), RelativeIndex(end, |s|);
    if lo < hi then s[lo..hi] else ""
  }

  /** `s.slice(start)` */
  function SliceFrom(s: string, start: int): (r: string)
    ensures |r| <= |s|
    ensures forall c :: c in r ==> c in s
  {
    Slice(s, start, |s|)
  }

  /** A -1 from a failed `indexOf` passed to `slice` stands for the last position:
      `s.slice(0, -1)` drops the last character and `s.slice(-1)` keeps only it. */
  lemma SliceMinusOne(s: string)
    ensures |s| > 0 ==> Slice(s, 0, -1) == s[..|s| - 1] && SliceFrom(s, -1) == s[|s| - 1..]
    ensures |s| == 0 ==> Slice(s, 0, -1) == "" && SliceFrom(s, -1) == ""
  {
  }

  /** `toLowerCase` on one character, for ASCII letters. */
  function LowerChar(c: char): (r: char)
    ensures 'A' <= c <= 'Z' ==> 'a' <= r <= 'z' && r as int - c as int == 32
    ensures !('A' <= c <= 'Z') ==> r == c
  {
    if 'A' <= c <= 'Z' then (c as int + 32) as char else c
  }

  /** `s.toLowerCase()` */
  function ToLowerCase(s: string): (r: string)
    ensures |r| == |s|
    ensures forall i :: 0 <= i < |s| ==> r[i] == LowerChar(s[i])
  {
    seq(|s|, i requires 0 <= i < |s| => LowerChar(s[i]))
  }

  /** `s.replaceAll(from, to)` for one-character `from` and `to`. */
  function ReplaceAllChar(s: string, from: char, to: char): (r: string)
    ensures |r| == |s|
    ensures forall i :: 0 <= i < |s| ==> r[i] == if s[i] == from then to else s[i]
  {
    seq(|s|, i requires 0 <= i < |s| => if s[i] == from then to else s[i])
  }

  /** `s.split(sep)` for a one-character separator: the pieces between separators, always
      at least one (the empty string splits into one empty piece). */
  function Split(s: string, sep: char): (r: seq<string>)
    ensures |r| >= 1
    ensures forall i :: 0 <= i < |r| ==> sep !in r[i]
    decreases |s|
  {
    if s == [] then [[]]
    else
      var rest := Split(s[1..], sep);
      if s[0] == sep then [[]] + rest
      else [[s[0]] + rest[0]] + rest[1..]
  }

  /** `parts.join(sep)` */
  function Join(parts: seq<string>, sep: char): string
    requires |parts| >= 1
    decreases |parts|
  {
    if |parts| == 1 then parts[0] else parts[0] + [sep] + Join(parts[1..], sep)
  }

  /** The number of occurrences of `c` in `s`. */
  function Count(s: string, c: char): nat
    decreases |s|
  {
    if s == [] then 0 else (if s[0] == c then 1 else 0) + Count(s[1..], c)
  }

  /** Joining the pieces gives back the string that was split. */
  lemma {:induction false} JoinSplit(s: string, sep: char)
    ensures Join(Split(s, sep), sep) == s
    decreases |s|
  {
    if s != [] {
      var rest := Split(s[1..], sep);
      JoinSplit(s[1..], sep);
      if s[0] == sep {
        assert Split(s, sep)[1..] == rest;
      } else {
        var r := Split(s, sep);
        if |rest| == 1 {
          assert r == [[s[0]] + rest[0]];
        } else {
          assert r[1..] == rest[1..];
          assert Join(r, sep) == [s[0]] + rest[0] + [sep] + Join(rest[1..], sep);
        }
      }
    }
  }

  /** Splitting yields one more piece than there are separators. */
  lemma {:induction false} SplitCount(s: string, sep: char)
    ensures |Split(s, sep)| == Count(s, sep) + 1
    decreases |s|
  {
    if s != [] {
      SplitCount(s[1..], sep);
    }
  }

  lemma {:induction false} SplitNoSeparator(s: string, sep: char)
    requires sep !in s
    ensures Split(s, sep) == [s]
    decreases |s|
  {
    if s != [] {
      SplitNoSeparator(s[1..], sep);
      assert [s[0]] + s[1..] == s;
    }
  }

  /** A separator between `a` and `b` splits them independently. */
  lemma {:induction false} SplitAround(a: string, b: string, sep: char)
    ensures Split(a + [sep] + b, sep) == Split(a, sep) + Split(b, sep)
    decreases |a|
  {
    if a == [] {
      assert a + [sep] + b == [sep] + b;
      assert ([sep] + b)[1..] == b;
    } else {
      assert (a + [sep] + b)[1..] == a[1..] + [sep] + b;
      SplitAround(a[1..], b, sep);
    }
  }
}
