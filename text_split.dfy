/**
  Python's str.split(sep) with an explicit, non-empty separator: the string is cut at
  each occurrence of sep found scanning left to right, and an absent separator
  leaves the string whole.
*/
module TextSplit {
  import opened Wrappers

  /** sep occurs in s starting at index i. */
  predicate OccursAt(s: string, sep: string, i: int) {
    0 <= i && i + |sep| <= |s| && s[i..i + |sep|] == sep
  }

  predicate Occurs(s: string, sep: string) {
    exists i | 0 <= i <= |s| :: OccursAt(s, sep, i)
  }

  /** sep does not occur where s lacks its first character. */
  lemma NotOccursAtOtherHead(s: string, sep: string, i: int)
    requires |sep| > 0 && (0 <= i < |s| ==> s[i] != sep[0])
    ensures !OccursAt(s, sep, i)
  {
    if 0 <= i && i + |sep| <= |s| {
      assert s[i..i + |sep|][0] == s[i];
    }
  }

  /** No proper suffix of sep is also a prefix of it, so two occurrences can never overlap. */
  predicate NoBorder(sep: string) {
    forall d :: 0 < d < |sep| ==> sep[d..] != sep[..|sep| - d]
  }

  lemma {:induction false} OccursAtTail(s: string, sep: string, j: nat)
    requires |s| > 0
    ensures OccursAt(s[1..], sep, j) <==> OccursAt(s, sep, j + 1)
  {
    if j + |sep| <= |s| - 1 {
      assert s[1..][j..j + |sep|] == s[j + 1..j + 1 + |sep|];
    }
  }

  /** Two overlapping occurrences of sep exhibit a border of sep. */
  lemma {:induction false} OverlapIsBorder(s: string, sep: string, i: int, j: int)
    requires OccursAt(s, sep, i) && OccursAt(s, sep, j) && i < j < i + |sep|
    ensures sep[j - i..] == sep[..|sep| - (j - i)]
  {
    assert sep[j - i..] == s[j..i + |sep|];
  }

  /** Two occurrences of a border-free separator never overlap. */
  lemma {:induction false} NoOverlap(s: string, sep: string, i: int, j: int)
    requires NoBorder(sep) && OccursAt(s, sep, i) && OccursAt(s, sep, j) && i < j
    ensures i + |sep| <= j
  {
    if j < i + |sep| {
      OverlapIsBorder(s, sep, i, j);
      assert false;
    }
  }

  /** The index of the first occurrence of sep in s (str.find). */
  function IndexOf(s: string, sep: string): (r: Option<nat>)
    requires |sep| > 0
    ensures r.Some? ==> OccursAt(s, sep, r.value)
    ensures r.Some? ==> forall j :: 0 <= j < r.value ==> !OccursAt(s, sep, j)
    ensures r.None? ==> forall j :: !OccursAt(s, sep, j)
    decreases |s|
  {
    if |s| < |sep| then None
    else if s[..|sep|] == sep then Some(0)
    else
      var rest := IndexOf(s[1..], sep);
      assert !OccursAt(s, sep, 0);
      assert forall j: nat :: OccursAt(s[1..], sep, j) <==> OccursAt(s, sep, j + 1) by {
        forall j: nat { OccursAtTail(s, sep, j); }
      }
      match rest
      case None =>
        assert forall j :: !OccursAt(s, sep, j) by {
          forall j ensures !OccursAt(s, sep, j) {
            if j > 0 { assert !OccursAt(s[1..], sep, j - 1); }
          }
        }
        None
      case Some(i) =>
        assert forall j :: 0 <= j < i + 1 ==> !OccursAt(s, sep, j) by {
          forall j | 0 <= j < i + 1 ensures !OccursAt(s, sep, j) {
            if j > 0 { assert !OccursAt(s[1..], sep, j - 1); }
          }
        }
        Some(i + 1)
  }

  /** s.split(sep) */
  function Split(s: string, sep: string): (r: seq<string>)
    requires |sep| > 0
    ensures |r| > 0
    decreases |s|
  {
    match IndexOf(s, sep)
    case None => [s]
    case Some(i) => [s[..i]] + Split(s[i + |sep|..], sep)
  }

  /** sep.join(parts) */
  function Join(parts: seq<string>, sep: string): string
    requires |parts| > 0
    decreases |parts|
  {
    if |parts| == 1 then parts[0] else parts[0] + sep + Join(parts[1..], sep)
  }

  function Last(parts: seq<string>): string
    requires |parts| > 0
  {
    parts[|parts| - 1]
  }

  /** Joining the fields with the separator gives back the original string. */
  lemma {:induction false} SplitJoin(s: string, sep: string)
    requires |sep| > 0
    ensures Join(Split(s, sep), sep) == s
    decreases |s|
  {
    match IndexOf(s, sep)
    case None =>
    case Some(i) =>
      var tail := s[i + |sep|..];
      var rest := Split(tail, sep);
      SplitJoin(tail, sep);
      var parts := Split(s, sep);
      assert parts == [s[..i]] + rest;
      assert |parts| > 1 && parts[0] == s[..i] && parts[1..] == rest;
      assert Join(parts, sep) == s[..i] + sep + tail;
      assert s[i..i + |sep|] == sep;
      assert s == s[..i] + s[i..i + |sep|] + tail;
  }

  /** No field contains the separator. */
  lemma {:induction false} SplitFieldsFree(s: string, sep: string, k: nat)
    requires |sep| > 0 && k < |Split(s, sep)|
    ensures !Occurs(Split(s, sep)[k], sep)
    decreases |s|
  {
    match IndexOf(s, sep)
    case None =>
    case Some(i) =>
      if k == 0 {
        if Occurs(s[..i], sep) {
          var j :| 0 <= j <= i && OccursAt(s[..i], sep, j);
          assert s[..i][j..j + |sep|] == s[j..j + |sep|];
          assert OccursAt(s, sep, j);
        }
      } else {
        SplitFieldsFree(s[i + |sep|..], sep, k - 1);
      }
  }

  lemma {:induction false} SplitWithoutSeparator(s: string, sep: string)
    requires |sep| > 0 && !Occurs(s, sep)
    ensures Split(s, sep) == [s]
  {
  }

  /** An occurrence at k means find() succeeds, at k or earlier. */
  lemma FoundBefore(s: string, sep: string, k: int)
    requires |sep| > 0 && OccursAt(s, sep, k)
    ensures IndexOf(s, sep).Some? && IndexOf(s, sep).value <= k
  {
  }

  lemma LastOfFound(s: string, sep: string)
    requires |sep| > 0 && IndexOf(s, sep).Some?
    ensures Last(Split(s, sep)) == Last(Split(s[IndexOf(s, sep).value + |sep|..], sep))
  {
    var r := Split(s[IndexOf(s, sep).value + |sep|..], sep);
    assert Split(s, sep) == [s[..IndexOf(s, sep).value]] + r;
  }

  /** With sep at k and nowhere after it, the last field is what follows that occurrence. */
  lemma {:induction false} LastFieldAt(s: string, sep: string, k: int)
    requires |sep| > 0 && NoBorder(sep) && OccursAt(s, sep, k) && !Occurs(s[k + |sep|..], sep)
    ensures Last(Split(s, sep)) == s[k + |sep|..]
    decreases |s|
  {
    FoundBefore(s, sep, k);
    var i := IndexOf(s, sep).value;
    var rest := s[i + |sep|..];
    LastOfFound(s, sep);
    if i == k {
      SplitWithoutSeparator(rest, sep);
    } else {
      NoOverlap(s, sep, i, k);
      var k' := k - (i + |sep|);
      assert rest[k'..k' + |sep|] == s[k..k + |sep|];
      assert rest[k' + |sep|..] == s[k + |sep|..];
      LastFieldAt(rest, sep, k');
    }
  }

  /** The last field is the text after the final occurrence of a border-free separator. */
  lemma LastFieldAfterSeparator(p: string, t: string, sep: string)
    requires |sep| > 0 && NoBorder(sep) && !Occurs(t, sep)
    ensures Last(Split(p + sep + t, sep)) == t
  {
    var s := p + sep + t;
    assert s[|p|..|p| + |sep|] == sep;
    assert s[|p| + |sep|..] == t;
    LastFieldAt(s, sep, |p|);
  }

  /** The number of occurrences of character c in s. */
  function Count(s: string, c: char): (n: nat)
    ensures n <= |s|
    decreases |s|
  {
    if s == [] then 0 else (if s[0] == c then 1 else 0) + Count(s[1..], c)
  }

  lemma {:induction false} CountSplit(a: string, b: string, c: char)
    ensures Count(a + b, c) == Count(a, c) + Count(b, c)
    decreases |a|
  {
    if a != [] {
      assert (a + b)[1..] == a[1..] + b;
      CountSplit(a[1..], b, c);
    } else {
      assert a + b == b;
    }
  }

  lemma {:induction false} CountZero(s: string, c: char)
    ensures Count(s, c) == 0 <==> !Occurs(s, [c])
    decreases |s|
  {
    if s != [] {
      CountZero(s[1..], c);
      forall j: nat ensures OccursAt(s[1..], [c], j) <==> OccursAt(s, [c], j + 1) {
        OccursAtTail(s, [c], j);
      }
      if s[0] == c {
        assert OccursAt(s, [c], 0);
      } else if Occurs(s, [c]) {
        var j :| 0 <= j <= |s| && OccursAt(s, [c], j);
        assert j != 0 && OccursAt(s[1..], [c], j - 1);
      }
    }
  }

  /** Splitting on a single character gives one more field than it has occurrences. */
  lemma {:induction false} SplitCharFieldCount(s: string, c: char)
    ensures |Split(s, [c])| == Count(s, c) + 1
    decreases |s|
  {
    match IndexOf(s, [c])
    case None =>
      CountZero(s, c);
    case Some(i) =>
      var tail := s[i + 1..];
      SplitCharFieldCount(tail, c);
      assert s == s[..i] + [c] + tail by {
        assert s[i..i + 1] == [c];
      }
      CountSplit(s[..i] + [c], tail, c);
      CountSplit(s[..i], [c], c);
      assert !Occurs(s[..i], [c]) by {
        if Occurs(s[..i], [c]) {
          var j :| 0 <= j <= i && OccursAt(s[..i], [c], j);
          assert 0 <= j < i;
          assert s[..i][j..j + 1] == s[j..j + 1];
          assert OccursAt(s, [c], j);
        }
      }
      CountZero(s[..i], c);
      assert Count([c], c) == 1 by {
        assert [c][1..] == [];
      }
  }

  /** a + c + b splits on c into exactly a and b when neither holds c. */
  lemma {:induction false} SplitTwoFields(a: string, b: string, c: char)
    requires !Occurs(a, [c]) && !Occurs(b, [c])
    ensures Split(a + [c] + b, [c]) == [a, b]
  {
    var s := a + [c] + b;
    assert OccursAt(s, [c], |a|) by {
      assert s[|a|..|a| + 1] == [c];
    }
    var i := IndexOf(s, [c]).value;
    if i < |a| {
      assert s[i..i + 1] == a[i..i + 1];
      assert OccursAt(a, [c], i);
    }
    assert s[..|a|] == a;
    assert s[|a| + 1..] == b;
    SplitWithoutSeparator(b, [c]);
  }
}
