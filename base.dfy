/** Shared value types: optional values and results that carry the error a
    Python operation would raise. */
module Base {

  datatype Option<+T> = None | Some(value: T)

  datatype Result<+T, +E> = Ok(value: T) | Err(error: E)

  /** `p` is a prefix of `q` (Python: `q[:len(p)] == p`). */
  predicate IsPrefix<T(==)>(p: seq<T>, q: seq<T>)
  {
    |p| <= |q| && q[..|p|] == p
  }

  /** Python slice `s[:n]` for `n >= 0`: never fails, truncates at the end. */
  function Take<T>(s: seq<T>, n: nat): (r: seq<T>)
    ensures |r| == if n <= |s| then n else |s|
    ensures forall i :: 0 <= i < |r| ==> r[i] == s[i]
  {
    if n <= |s| then s[..n] else s
  }

  /** Python slice `s[n:]` for `n >= 0`. */
  function Drop<T>(s: seq<T>, n: nat): (r: seq<T>)
    ensures |r| == if n <= |s| then |s| - n else 0
    ensures forall i :: 0 <= i < |r| ==> r[i] == s[n + i]
  {
    if n <= |s| then s[n..] else []
  }

  /** The elements of `s` in reverse order. */
  function Reverse<T>(s: seq<T>): (r: seq<T>)
    ensures |r| == |s|
    ensures forall i :: 0 <= i < |s| ==> r[i] == s[|s| - 1 - i]
  {
    if s == [] then [] else Reverse(s[1..]) + [s[0]]
  }

  /** No element occurs twice. */
  predicate Distinct<T(==)>(s: seq<T>)
  {
    forall i, j :: 0 <= i < j < |s| ==> s[i] != s[j]
  }

  /** The elements of `s` with repetitions dropped, each kept where it
      first occurs (the `yielded` dictionary idiom). */
  function Dedup<T(==)>(s: seq<T>): seq<T>
  {
    if s == [] then []
    else
      var d := Dedup(s[..|s| - 1]);
      if s[|s| - 1] in d then d else d + [s[|s| - 1]]
  }

  /** `Dedup` keeps exactly the elements, each once. */
  lemma {:induction false} DedupMembers<T>(s: seq<T>)
    ensures Distinct(Dedup(s))
    ensures forall x :: x in Dedup(s) <==> x in s
  {
    if s != [] {
      DedupMembers(s[..|s| - 1]);
      assert s == s[..|s| - 1] + [s[|s| - 1]];
    }
  }

  lemma DedupSnoc<T>(s: seq<T>, x: T)
    ensures Dedup(s + [x]) == if x in Dedup(s) then Dedup(s) else Dedup(s) + [x]
  {
    assert (s + [x])[..|s|] == s;
  }

  /** The lists of `ss` one after another. */
  function Flatten<T>(ss: seq<seq<T>>): seq<T>
  {
    if ss == [] then [] else Flatten(ss[..|ss| - 1]) + ss[|ss| - 1]
  }

  lemma {:induction false} FlattenMembers<T>(ss: seq<seq<T>>, x: T)
    ensures x in Flatten(ss) <==> exists i :: 0 <= i < |ss| && x in ss[i]
  {
    if ss != [] {
      var front := ss[..|ss| - 1];
      FlattenMembers(front, x);
      assert forall i :: 0 <= i < |front| ==> front[i] == ss[i];
      if x in ss[|ss| - 1] {
        assert x in Flatten(ss);
      }
    }
  }

  /** Python `str(n)` for a natural number. */
  function NatToString(n: nat): (r: string)
    ensures |r| >= 1
    ensures forall i :: 0 <= i < |r| ==> '0' <= r[i] <= '9'
  {
    if n < 10 then [Digit(n)] else NatToString(n / 10) + [Digit(n % 10)]
  }

  function Digit(d: nat): (c: char)
    requires d < 10
    ensures '0' <= c <= '9'
  {
    ['0', '1', '2', '3', '4', '5', '6', '7', '8', '9'][d]
  }

  lemma {:induction false} ReverseAppend<T>(a: seq<T>, b: seq<T>)
    ensures Reverse(a + b) == Reverse(b) + Reverse(a)
    decreases |a|
  {
    if a == [] {
      assert a + b == b;
    } else {
      assert (a + b)[1..] == a[1..] + b;
      ReverseAppend(a[1..], b);
    }
  }

  lemma {:induction false} ReverseReverse<T>(s: seq<T>)
    ensures Reverse(Reverse(s)) == s
    decreases |s|
  {
    if s != [] {
      ReverseReverse(s[1..]);
      ReverseAppend(Reverse(s[1..]), [s[0]]);
      assert Reverse([s[0]]) == [s[0]];
      assert [s[0]] + s[1..] == s;
    }
  }

  /** The ASCII whitespace `str.strip` and `str.split()` recognise. */
  predicate IsSpace(c: char)
  {
    c == ' ' || c == '\t' || c == '\n' || c == '\r' || c as int == 11 || c as int == 12
  }

  /** The longest prefix of `s` without whitespace. */
  function Word(s: string): (r: string)
    ensures IsPrefix(r, s) && forall c :: c in r ==> !IsSpace(c)
    ensures |r| < |s| ==> IsSpace(s[|r|])
  {
    if s == [] || IsSpace(s[0]) then [] else [s[0]] + Word(s[1..])
  }

  /** Python `s.split(sep)` for a one-element separator: the pieces between
      separators, at least one. */
  function Split<T(==)>(s: seq<T>, sep: T): (r: seq<seq<T>>)
    ensures |r| >= 1
    ensures forall i :: 0 <= i < |r| ==> sep !in r[i]
  {
    if s == [] then [[]]
    else
      var rest := Split(s[1..], sep);
      if s[0] == sep then [[]] + rest else [[s[0]] + rest[0]] + rest[1..]
  }

  /** Python `sep.join(parts)`. */
  function Join<T>(parts: seq<seq<T>>, sep: T): seq<T>
  {
    if parts == [] then []
    else if |parts| == 1 then parts[0]
    else parts[0] + [sep] + Join(parts[1..], sep)
  }

  /** Joining the pieces of a split gives back the original. */
  lemma {:induction false} JoinSplit<T>(s: seq<T>, sep: T)
    ensures Join(Split(s, sep), sep) == s
  {
    if s != [] {
      JoinSplit(s[1..], sep);
      var rest := Split(s[1..], sep);
      if s[0] != sep {
        if |rest| == 1 {
          assert Join(rest, sep) == rest[0];
        } else {
          assert Join(rest, sep) == rest[0] + [sep] + Join(rest[1..], sep);
          assert ([[s[0]] + rest[0]] + rest[1..])[1..] == rest[1..];
        }
      } else {
        assert ([[]] + rest)[1..] == rest;
      }
    }
  }

  /** Splitting pieces joined by a separator they do not contain gives back
      the pieces. */
  lemma {:induction false} SplitJoin<T>(parts: seq<seq<T>>, sep: T)
    requires |parts| >= 1 && forall i :: 0 <= i < |parts| ==> sep !in parts[i]
    ensures Split(Join(parts, sep), sep) == parts
    decreases |parts|, |parts[0]|
  {
    if parts[0] == [] {
      if |parts| > 1 {
        SplitJoin(parts[1..], sep);
        assert Join(parts, sep) == [sep] + Join(parts[1..], sep);
        assert ([sep] + Join(parts[1..], sep))[1..] == Join(parts[1..], sep);
        assert [[]] + parts[1..] == parts;
      }
    } else {
      var p := parts[0];
      var shorter := [p[1..]] + parts[1..];
      assert shorter[1..] == parts[1..];
      assert forall i :: 1 <= i < |shorter| ==> shorter[i] == parts[i];
      assert sep !in p[1..] by {
        assert forall x :: x in p[1..] ==> x in p;
      }
      SplitJoin(shorter, sep);
      if |parts| == 1 {
        assert Join(parts, sep) == p && Join(shorter, sep) == p[1..];
      } else {
        assert Join(parts, sep) == p + [sep] + Join(parts[1..], sep);
        assert Join(shorter, sep) == p[1..] + [sep] + Join(parts[1..], sep);
      }
      var j := Join(parts, sep);
      assert j[1..] == Join(shorter, sep);
      assert j[0] == p[0] != sep;
      assert Split(j, sep) == [[p[0]] + shorter[0]] + shorter[1..];
      assert [p[0]] + p[1..] == p;
      assert [p] + parts[1..] == parts;
    }
  }

  /** Python `s.replace(pat, rep)`: every non-overlapping occurrence of `pat`,
      scanning from the left, is replaced by `rep`. */
  function Replace<T(==)>(s: seq<T>, pat: seq<T>, rep: seq<T>): seq<T>
    requires pat != []
    decreases |s|
  {
    if |s| < |pat| then s
    else if s[..|pat|] == pat then rep + Replace(s[|pat|..], pat, rep)
    else [s[0]] + Replace(s[1..], pat, rep)
  }

  /** `pat` occurs in `s` at index `i`. */
  predicate OccursAt<T(==)>(s: seq<T>, pat: seq<T>, i: int)
  {
    0 <= i && i + |pat| <= |s| && s[i..i + |pat|] == pat
  }

  /** Replacing a pattern that does not occur changes nothing. */
  lemma {:induction false} ReplaceAbsent<T>(s: seq<T>, pat: seq<T>, rep: seq<T>)
    requires pat != [] && forall i :: !OccursAt(s, pat, i)
    ensures Replace(s, pat, rep) == s
    decreases |s|
  {
    if |s| >= |pat| {
      assert !OccursAt(s, pat, 0);
      forall i
        ensures !OccursAt(s[1..], pat, i)
      {
        assert !OccursAt(s, pat, i + 1);
        if 0 <= i && i + |pat| <= |s| - 1 {
          assert s[1..][i..i + |pat|] == s[i + 1..i + 1 + |pat|];
        }
      }
      ReplaceAbsent(s[1..], pat, rep);
      assert [s[0]] + s[1..] == s;
    }
  }

  /** Replacing a pattern by itself changes nothing. */
  lemma {:induction false} ReplaceSelf<T>(s: seq<T>, pat: seq<T>)
    requires pat != []
    ensures Replace(s, pat, pat) == s
    decreases |s|
  {
    if |s| >= |pat| {
      if s[..|pat|] == pat {
        ReplaceSelf(s[|pat|..], pat);
        assert s[..|pat|] + s[|pat|..] == s;
      } else {
        ReplaceSelf(s[1..], pat);
        assert [s[0]] + s[1..] == s;
      }
    }
  }

  /** Python string comparison: by character code, a proper prefix first. */
  predicate StrLe(a: string, b: string)
    decreases |a|
  {
    a == [] || (b != [] && (a[0] < b[0] || (a[0] == b[0] && StrLe(a[1..], b[1..]))))
  }

  predicate StrLt(a: string, b: string)
  {
    StrLe(a, b) && a != b
  }

  lemma {:induction false} StrTotal(a: string, b: string)
    ensures StrLe(a, b) || StrLe(b, a)
    decreases |a|
  {
    if a != [] && b != [] && a[0] == b[0] {
      StrTotal(a[1..], b[1..]);
    }
  }

  lemma {:induction false} StrAntisym(a: string, b: string)
    requires StrLe(a, b) && StrLe(b, a)
    ensures a == b
    decreases |a|
  {
    if a != [] && b != [] {
      StrAntisym(a[1..], b[1..]);
      assert a == [a[0]] + a[1..] && b == [b[0]] + b[1..];
    }
  }

  /** Concatenation regrouped; stated once so long chains need not redo it. */
  lemma ConcatAssoc<T>(a: seq<T>, b: seq<T>, c: seq<T>)
    ensures a + b + c == a + (b + c)
  {
  }

  /** Joining one more piece appends the separator and the piece. */
  lemma {:induction false} JoinSnoc<T>(ns: seq<seq<T>>, n: seq<T>, sep: T)
    ensures Join(ns + [n], sep) == if ns == [] then n else Join(ns, sep) + [sep] + n
    decreases |ns|
  {
    if ns == [] {
      assert ns + [n] == [n];
    } else if |ns| == 1 {
      assert ns + [n] == [ns[0], n];
      assert [ns[0], n][1..] == [n];
    } else {
      assert (ns + [n])[0] == ns[0] && (ns + [n])[1..] == ns[1..] + [n];
      JoinSnoc(ns[1..], n, sep);
    }
  }

  /** ASCII `str.upper()`. */
  function Upper(s: string): (r: string)
    ensures |r| == |s|
    ensures forall i :: 0 <= i < |s| ==> r[i] == if 'a' <= s[i] <= 'z' then (s[i] as int - 32) as char else s[i]
  {
    if s == [] then [] else [if 'a' <= s[0] <= 'z' then (s[0] as int - 32) as char else s[0]] + Upper(s[1..])
  }

  /** A comparison under which any two values are ordered one way or the
      other. */
  ghost predicate Total<T(!new)>(le: (T, T) -> bool)
  {
    forall a, b :: le(a, b) || le(b, a)
  }

  /** Each element is `le` its successor. */
  predicate SortedBy<T>(s: seq<T>, le: (T, T) -> bool)
  {
    forall i :: 0 <= i < |s| - 1 ==> le(s[i], s[i + 1])
  }

  /** Python's `list.sort()` under the comparison `le`, as a stable
      insertion sort: a permutation of `s`, sorted whenever `le` is total
      (`SortSorted`). */
  function Sort<T(==,!new)>(s: seq<T>, le: (T, T) -> bool): (r: seq<T>)
    ensures multiset(r) == multiset(s)
    decreases |s|
  {
    if s == [] then []
    else
      assert s == [s[0]] + s[1..];
      Insert(s[0], Sort(s[1..], le), le)
  }

  /** `x` placed before the first element of `s` it is `le`. */
  function Insert<T(==,!new)>(x: T, s: seq<T>, le: (T, T) -> bool): (r: seq<T>)
    ensures multiset(r) == multiset(s) + multiset{x}
    ensures r[0] == x || (s != [] && r[0] == s[0])
    decreases |s|
  {
    if s == [] then [x]
    else if le(x, s[0]) then [x] + s
    else
      var rest := Insert(x, s[1..], le);
      assert s == [s[0]] + s[1..];
      [s[0]] + rest
  }

  /** Under a total comparison, sorting gives a sorted list. */
  lemma {:induction false} SortSorted<T(!new)>(s: seq<T>, le: (T, T) -> bool)
    requires Total(le)
    ensures SortedBy(Sort(s, le), le)
    decreases |s|
  {
    if s != [] {
      SortSorted(s[1..], le);
      InsertSorted(s[0], Sort(s[1..], le), le);
    }
  }

  /** Under a total comparison, inserting into a sorted list keeps it
      sorted. */
  lemma {:induction false} InsertSorted<T(!new)>(x: T, s: seq<T>, le: (T, T) -> bool)
    requires Total(le) && SortedBy(s, le)
    ensures SortedBy(Insert(x, s, le), le)
    decreases |s|
  {
    if s != [] && !le(x, s[0]) {
      assert le(s[0], x);
      InsertSorted(x, s[1..], le);
    }
  }

  /** Sorting keeps exactly the members. */
  lemma SortMembers<T(!new)>(s: seq<T>, le: (T, T) -> bool, x: T)
    ensures x in Sort(s, le) <==> x in s
  {
    assert x in Sort(s, le) <==> x in multiset(Sort(s, le));
    assert x in s <==> x in multiset(s);
  }

  /** Sorting a list without repeats gives one without repeats. */
  lemma {:induction false} SortKeepsDistinct<T(!new)>(s: seq<T>, le: (T, T) -> bool)
    requires Distinct(s)
    ensures Distinct(Sort(s, le))
    decreases |s|
  {
    if s != [] {
      assert Distinct(s[1..]);
      SortKeepsDistinct(s[1..], le);
      SortMembers(s[1..], le, s[0]);
      InsertKeepsDistinct(s[0], Sort(s[1..], le), le);
    }
  }

  /** Inserting a new element keeps a list without repeats. */
  lemma {:induction false} InsertKeepsDistinct<T(!new)>(x: T, s: seq<T>, le: (T, T) -> bool)
    requires Distinct(s) && x !in s
    ensures Distinct(Insert(x, s, le))
    decreases |s|
  {
    if s != [] && !le(x, s[0]) {
      assert Distinct(s[1..]);
      InsertKeepsDistinct(x, s[1..], le);
      var rest := Insert(x, s[1..], le);
      assert s[0] !in rest by {
        assert s[0] !in multiset(s[1..]) + multiset{x};
      }
    }
  }
}
