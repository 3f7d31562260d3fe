/** The pieces of Go's `strings` and `sort` packages that the handler relies on:
    joining with a separator, and sorting distinct strings in byte order. */
module Strings {

  /** strings.Join: the parts with `sep` between each neighbouring pair. */
  function Join(parts: seq<string>, sep: string): string
  {
    if |parts| == 0 then ""
    else if |parts| == 1 then parts[0]
    else parts[0] + sep + Join(parts[1..], sep)
  }

  /** strings.Split on a one-character separator: the maximal pieces between
      separators (an empty string splits into one empty piece). */
  function Split(s: string, sep: char): (r: seq<string>)
    ensures |r| >= 1
  {
    if |s| == 0 then [""]
    else
      var rest := Split(s[1..], sep);
      if s[0] == sep then [""] + rest
      else [[s[0]] + rest[0]] + rest[1..]
  }

  /** A piece without the separator splits into itself. */
  lemma {:induction false} SplitPlain(s: string, sep: char)
    requires sep !in s
    ensures Split(s, sep) == [s]
  {
    if |s| > 0 {
      assert sep !in s[1..];
      SplitPlain(s[1..], sep);
      assert [s[0]] + s[1..] == s;
    }
  }

  /** Splitting stops at the first separator. */
  lemma {:induction false} SplitAtSeparator(a: string, sep: char, b: string)
    requires sep !in a
    ensures Split(a + [sep] + b, sep) == [a] + Split(b, sep)
  {
    if |a| == 0 {
      assert a + [sep] + b == [sep] + b;
      assert ([sep] + b)[1..] == b;
    } else {
      assert (a + [sep] + b)[0] == a[0];
      assert (a + [sep] + b)[1..] == a[1..] + [sep] + b;
      assert sep !in a[1..];
      SplitAtSeparator(a[1..], sep, b);
      assert [a[0]] + a[1..] == a;
    }
  }

  /** Join and Split are inverse when no part holds the separator: a non-empty
      list of parts can be read back from the joined text. */
  lemma {:induction false} SplitJoin(parts: seq<string>, sep: char)
    requires |parts| >= 1
    requires forall i :: 0 <= i < |parts| ==> sep !in parts[i]
    ensures Split(Join(parts, [sep]), sep) == parts
  {
    if |parts| == 1 {
      SplitPlain(parts[0], sep);
    } else {
      SplitJoin(parts[1..], sep);
      SplitAtSeparator(parts[0], sep, Join(parts[1..], [sep]));
      assert [parts[0]] + parts[1..] == parts;
    }
  }

  /** Go's `<` on strings: lexicographic order of the characters, a proper
      prefix coming first.  For text held as UTF-8 this agrees with the byte
      order Go compares, since UTF-8 preserves code-point order. */
  predicate Less(a: string, b: string)
  {
    if |a| == 0 then |b| > 0
    else |b| > 0 && (a[0] < b[0] || (a[0] == b[0] && Less(a[1..], b[1..])))
  }

  lemma {:induction false} LessIrreflexive(a: string)
    ensures !Less(a, a)
  {
    if |a| > 0 {
      LessIrreflexive(a[1..]);
    }
  }

  lemma {:induction false} LessTransitive(a: string, b: string, c: string)
    requires Less(a, b) && Less(b, c)
    ensures Less(a, c)
  {
    if |a| > 0 && a[0] == b[0] && b[0] == c[0] {
      LessTransitive(a[1..], b[1..], c[1..]);
    }
  }

  lemma {:induction false} LessTotal(a: string, b: string)
    requires a != b
    ensures Less(a, b) || Less(b, a)
  {
    if |a| > 0 && |b| > 0 && a[0] == b[0] {
      assert a == [a[0]] + a[1..] && b == [b[0]] + b[1..];
      LessTotal(a[1..], b[1..]);
    }
  }

  /** Strictly increasing, hence free of duplicates. */
  predicate StrictlySorted(q: seq<string>)
  {
    forall i, j :: 0 <= i < j < |q| ==> Less(q[i], q[j])
  }

  /** `q` lists exactly the members of `s`, in increasing order, each once. */
  predicate SortedListing(q: seq<string>, s: set<string>)
  {
    StrictlySorted(q) && (forall x :: x in q ==> x in s) && (forall x :: x in s ==> x in q)
  }

  /** Places a new key in a sorted listing. */
  function Insert(q: seq<string>, k: string): (r: seq<string>)
    requires StrictlySorted(q) && k !in q
    ensures StrictlySorted(r)
    ensures forall x :: x in r <==> x in q || x == k
    ensures |r| == |q| + 1
  {
    if |q| == 0 then [k]
    else if Less(k, q[0]) then
      forall j | 0 < j < |q| ensures Less(k, q[j]) {
        LessTransitive(k, q[0], q[j]);
      }
      [k] + q
    else
      LessTotal(k, q[0]);
      assert q == [q[0]] + q[1..];
      var tail := Insert(q[1..], k);
      assert forall x :: x in tail ==> Less(q[0], x);
      [q[0]] + tail
  }

  /** sort.Strings on a list of distinct strings. */
  function Sort(q: seq<string>): (r: seq<string>)
    requires forall i, j :: 0 <= i < j < |q| ==> q[i] != q[j]
    ensures StrictlySorted(r)
    ensures forall x :: x in r <==> x in q
    ensures |r| == |q|
  {
    if |q| == 0 then []
    else
      var init := q[..|q| - 1];
      assert forall x :: x in q <==> x in init || x == q[|q| - 1];
      Insert(Sort(init), q[|q| - 1])
  }

  /** A set has at most one sorted listing: the sorted keys are determined by
      the set alone, whatever order the keys were collected in. */
  lemma {:induction false} SortedListingUnique(a: seq<string>, b: seq<string>, s: set<string>)
    requires SortedListing(a, s) && SortedListing(b, s)
    ensures a == b
  {
    ListingEmpty(a, s);
    ListingEmpty(b, s);
    if |a| > 0 && |b| > 0 {
      if a[0] != b[0] {
        assert a[0] in b;
        assert b[0] in a;
        var i :| 0 <= i < |a| && a[i] == b[0];
        var j :| 0 <= j < |b| && b[j] == a[0];
        LessTransitive(a[0], b[0], a[0]);
        LessIrreflexive(a[0]);
      }
      var rest := s - {a[0]};
      forall x ensures x in a[1..] <==> x in rest {
        if x in a[1..] {
          var i :| 1 <= i < |a| && a[i] == x;
          LessIrreflexive(a[0]);
        }
      }
      forall x ensures x in b[1..] <==> x in rest {
        if x in b[1..] {
          var i :| 1 <= i < |b| && b[i] == x;
          LessIrreflexive(b[0]);
        }
      }
      SortedListingUnique(a[1..], b[1..], rest);
      assert a == [a[0]] + a[1..] && b == [b[0]] + b[1..];
    }
  }

  lemma {:induction false} ListingEmpty(q: seq<string>, s: set<string>)
    requires SortedListing(q, s)
    ensures |q| == 0 <==> s == {}
  {
    if |q| > 0 {
      assert q[0] in s;
    }
  }
}
