/**
 * The two pieces of Ruby's `Array` that a Decision relies on: `uniq`, which
 * drops repeated elements keeping the first occurrence of each, and `join`,
 * which concatenates the string forms of the elements with a separator.
 * An array is a `seq`; an element only needs equality.
 */
module RubyArray {

  /** No element occurs twice. */
  predicate NoDuplicates<T(==)>(s: seq<T>) {
    forall i, j :: 0 <= i < j < |s| ==> s[i] != s[j]
  }

  /** A sequence without repeated elements: the shape of a frozen `uniq` result. */
  type UniqueSeq<T(==)> = s: seq<T> | NoDuplicates(s) witness []

  /** Index of the first occurrence of `x` in `s`, or `|s|` when `x` does not occur. */
  function FirstIndex<T(==)>(s: seq<T>, x: T): (k: nat)
    ensures k <= |s|
    ensures k < |s| <==> x in s
    ensures k < |s| ==> s[k] == x
    ensures x !in s[..k]
  {
    if s == [] then 0
    else if s[0] == x then 0
    else
      var k' := FirstIndex(s[1..], x);
      assert s[1..][..k'] == s[1..k' + 1];
      1 + k'
  }

  /** `r` can be obtained from `s` by deleting elements, keeping the rest in order. */
  predicate IsSubsequence<T(==)>(r: seq<T>, s: seq<T>)
    decreases |s|
  {
    r == [] ||
    (s != [] &&
      ((r[|r| - 1] == s[|s| - 1] && IsSubsequence(r[..|r| - 1], s[..|s| - 1]))
       || IsSubsequence(r, s[..|s| - 1])))
  }

  /**
   * The elements of `r` are listed in the order in which each of them first
   * occurs in `s`.
   */
  predicate InFirstOccurrenceOrder<T(==)>(r: seq<T>, s: seq<T>) {
    forall i, j :: 0 <= i < j < |r| ==> FirstIndex(s, r[i]) < FirstIndex(s, r[j])
  }

  /**
   * `Array#uniq` without a block: each element of `s` once, at the place of
   * its first occurrence. Defined by scanning `s` from the left: an element
   * is appended unless it was already kept.
   */
  function Uniq<T(==)>(s: seq<T>): (r: UniqueSeq<T>)
    ensures forall i :: 0 <= i < |r| ==> r[i] in s
    ensures forall i :: 0 <= i < |s| ==> s[i] in r
    ensures |r| <= |s|
    decreases |s|
  {
    if s == [] then []
    else
      var kept := Uniq(s[..|s| - 1]);
      var last := s[|s| - 1];
      if last in kept then kept else kept + [last]
  }

  /** `Array#join(sep)` over elements already turned into strings. */
  function Join(parts: seq<string>, sep: string): (r: string)
    ensures parts == [] ==> r == []
    ensures |parts| == 1 ==> r == parts[0]
    decreases |parts|
  {
    if parts == [] then []
    else if |parts| == 1 then parts[0]
    else Join(parts[..|parts| - 1], sep) + sep + parts[|parts| - 1]
  }

  /** `xs.map { |x| show(x) }`: the string form of every element. */
  function MapShow<T>(xs: seq<T>, show: T -> string): (r: seq<string>)
    ensures |r| == |xs|
    ensures forall i :: 0 <= i < |xs| ==> r[i] == show(xs[i])
  {
    seq(|xs|, i requires 0 <= i < |xs| => show(xs[i]))
  }

  // ---------------------------------------------------------------------
  // Properties of FirstIndex
  // ---------------------------------------------------------------------

  /** The first occurrence is the only index holding `x` with no `x` before it. */
  lemma FirstIndexIs<T>(s: seq<T>, x: T, k: nat)
    requires k <= |s|
    requires k < |s| ==> s[k] == x
    requires x !in s[..k]
    ensures FirstIndex(s, x) == k
  {
  }

  /** Appending never moves the first occurrence of an element already present. */
  lemma FirstIndexAppend<T>(s: seq<T>, t: seq<T>, x: T)
    ensures x in s ==> FirstIndex(s + t, x) == FirstIndex(s, x)
    ensures x !in s ==> FirstIndex(s + t, x) == |s| + FirstIndex(t, x)
  {
    if x in s {
      var j := FirstIndex(s, x);
      assert (s + t)[..j] == s[..j];
      FirstIndexIs(s + t, x, j);
    } else {
      var j := FirstIndex(t, x);
      assert (s + t)[..|s| + j] == s + t[..j];
      FirstIndexIs(s + t, x, |s| + j);
    }
  }

  // ---------------------------------------------------------------------
  // Properties of Uniq
  // ---------------------------------------------------------------------

  /** `uniq` keeps the first occurrences in the order the input lists them. */
  lemma {:induction false} UniqInFirstOccurrenceOrder<T>(s: seq<T>)
    ensures InFirstOccurrenceOrder(Uniq(s), s)
    decreases |s|
  {
    if s != [] {
      var init, last := s[..|s| - 1], s[|s| - 1];
      assert s == init + [last];
      var kept := Uniq(init);
      UniqInFirstOccurrenceOrder(init);
      forall i | 0 <= i < |kept|
        ensures FirstIndex(s, kept[i]) == FirstIndex(init, kept[i]) < |init|
      {
        FirstIndexAppend(init, [last], kept[i]);
      }
      OrderCarriesOver(kept, init, s);
      if last !in kept {
        FirstIndexAppend(init, [last], last);
        AppendLatest(kept, last, s);
      }
    }
  }

  /** An order by first occurrence in `s` that assigns the same positions in `s'` holds in `s'` too. */
  lemma OrderCarriesOver<T>(r: seq<T>, s: seq<T>, s': seq<T>)
    requires InFirstOccurrenceOrder(r, s)
    requires forall i :: 0 <= i < |r| ==> FirstIndex(s', r[i]) == FirstIndex(s, r[i])
    ensures InFirstOccurrenceOrder(r, s')
  {
  }

  /** Appending an element that first occurs after all others keeps the order. */
  lemma AppendLatest<T>(r: seq<T>, x: T, s: seq<T>)
    requires InFirstOccurrenceOrder(r, s)
    requires forall i :: 0 <= i < |r| ==> FirstIndex(s, r[i]) < FirstIndex(s, x)
    ensures InFirstOccurrenceOrder(r + [x], s)
  {
  }

  /** `uniq` only deletes elements: its result is a subsequence of the input. */
  lemma {:induction false} UniqIsSubsequence<T>(s: seq<T>)
    ensures IsSubsequence(Uniq(s), s)
    decreases |s|
  {
    if s != [] {
      var init := s[..|s| - 1];
      UniqIsSubsequence(init);
      var kept := Uniq(init);
      if s[|s| - 1] !in kept {
        var r := kept + [s[|s| - 1]];
        assert r[..|r| - 1] == kept;
      }
    }
  }

  /** On a sequence that already has no duplicates, `uniq` changes nothing. */
  lemma {:induction false} UniqOfDistinct<T>(s: seq<T>)
    requires NoDuplicates(s)
    ensures Uniq(s) == s
    decreases |s|
  {
    if s != [] {
      var init := s[..|s| - 1];
      UniqOfDistinct(init);
      assert s[|s| - 1] !in init;
      assert s == init + [s[|s| - 1]];
    }
  }

  /** `uniq` is idempotent. */
  lemma UniqIdempotent<T>(s: seq<T>)
    ensures Uniq(Uniq(s)) == Uniq(s)
  {
  }

  /** Dropping the last element of a duplicate-free sequence removes exactly that element. */
  lemma DropLast<T>(t: seq<T>, s: seq<T>)
    requires NoDuplicates(t) && t != []
    requires InFirstOccurrenceOrder(t, s)
    ensures NoDuplicates(t[..|t| - 1]) && InFirstOccurrenceOrder(t[..|t| - 1], s)
    ensures forall x :: x in t[..|t| - 1] <==> (x in t && x != t[|t| - 1])
  {
  }

  /**
   * The last element of a sequence listed in first-occurrence order of `s`
   * is its element that occurs latest in `s`: two such listings of the same
   * elements end alike.
   */
  lemma SameLast<T>(t: seq<T>, u: seq<T>, s: seq<T>)
    requires t != [] && u != []
    requires forall x :: x in t <==> x in u
    requires forall x :: x in t ==> x in s
    requires InFirstOccurrenceOrder(t, s) && InFirstOccurrenceOrder(u, s)
    ensures t[|t| - 1] == u[|u| - 1]
  {
    var a, b := t[|t| - 1], u[|u| - 1];
    assert a in t && b in u;
    var ib :| 0 <= ib < |t| && t[ib] == b;
    var ia :| 0 <= ia < |u| && u[ia] == a;
    LastOccursLatest(t, s, ib);
    LastOccursLatest(u, s, ia);
  }

  /** In a first-occurrence listing, no element first occurs after the last one. */
  lemma LastOccursLatest<T>(t: seq<T>, s: seq<T>, i: nat)
    requires i < |t|
    requires InFirstOccurrenceOrder(t, s)
    ensures FirstIndex(s, t[i]) <= FirstIndex(s, t[|t| - 1])
  {
  }

  /**
   * Two duplicate-free sequences holding the same elements, both listed in
   * first-occurrence order of `s`, are equal.
   */
  lemma {:induction false} FirstOccurrenceListingUnique<T>(t: seq<T>, u: seq<T>, s: seq<T>)
    requires NoDuplicates(t) && NoDuplicates(u)
    requires forall x :: x in t <==> x in u
    requires forall x :: x in t ==> x in s
    requires InFirstOccurrenceOrder(t, s) && InFirstOccurrenceOrder(u, s)
    ensures t == u
    decreases |t| + |u|
  {
    assert t != [] ==> t[0] in u;
    assert u != [] ==> u[0] in t;
    if t != [] {
      SameLast(t, u, s);
      DropLast(t, s);
      DropLast(u, s);
      var t', u' := t[..|t| - 1], u[..|u| - 1];
      forall x ensures x in t' <==> x in u' {
        assert x in t' <==> (x in t && x != t[|t| - 1]);
        assert x in u' <==> (x in u && x != u[|u| - 1]);
      }
      FirstOccurrenceListingUnique(t', u', s);
      assert t == t' + [t[|t| - 1]] && u == u' + [u[|u| - 1]];
    }
  }

  /**
   * Reference characterisation of `uniq`: a list is the result of `uniq` on
   * `s` exactly when it has no duplicates, holds the same elements as `s`,
   * and lists them in first-occurrence order.
   */
  lemma UniqCharacterised<T>(s: seq<T>, t: seq<T>)
    ensures t == Uniq(s) <==>
      (NoDuplicates(t) && (forall x :: x in t <==> x in s) && InFirstOccurrenceOrder(t, s))
  {
    UniqInFirstOccurrenceOrder(s);
    if NoDuplicates(t) && (forall x :: x in t <==> x in s) && InFirstOccurrenceOrder(t, s) {
      FirstOccurrenceListingUnique(t, Uniq(s), s);
    }
  }

  // ---------------------------------------------------------------------
  // Properties of Join
  // ---------------------------------------------------------------------

  /** Joining a concatenation puts one separator between the two joined halves. */
  lemma {:induction false} JoinAppend(a: seq<string>, b: seq<string>, sep: string)
    requires a != [] && b != []
    ensures Join(a + b, sep) == Join(a, sep) + sep + Join(b, sep)
    decreases |b|
  {
    var ab := a + b;
    var last := b[|b| - 1];
    assert ab[|ab| - 1] == last;
    if |b| == 1 {
      assert ab[..|ab| - 1] == a;
      assert Join(ab, sep) == Join(a, sep) + sep + last;
    } else {
      var b' := b[..|b| - 1];
      assert ab[..|ab| - 1] == a + b';
      assert Join(ab, sep) == Join(a + b', sep) + sep + last;
      JoinAppend(a, b', sep);
      assert Join(b, sep) == Join(b', sep) + sep + last;
    }
  }

  /**
   * A join of two or more parts starts with the first part and the separator,
   * and ends with the separator and the last part.
   */
  lemma {:induction false} JoinEnds(parts: seq<string>, sep: string)
    requires |parts| >= 2
    ensures parts[0] + sep <= Join(parts, sep)
    ensures exists middle :: Join(parts, sep) == middle + sep + parts[|parts| - 1]
    decreases |parts|
  {
    var init := parts[..|parts| - 1];
    var r := Join(parts, sep);
    assert r == Join(init, sep) + sep + parts[|parts| - 1];
    if |parts| > 2 {
      JoinEnds(init, sep);
      assert init[0] == parts[0];
      assert Join(init, sep) <= r;
    }
  }

  /** The length of a join: every part plus one separator between neighbours. */
  lemma {:induction false} JoinLength(parts: seq<string>, sep: string)
    requires parts != []
    ensures |Join(parts, sep)| == TotalLength(parts) + (|parts| - 1) * |sep|
    decreases |parts|
  {
    if |parts| > 1 {
      var init, last := parts[..|parts| - 1], parts[|parts| - 1];
      assert Join(parts, sep) == Join(init, sep) + sep + last;
      JoinLength(init, sep);
      assert TotalLength(parts) == TotalLength(init) + |last|;
      assert (|parts| - 1) * |sep| == (|init| - 1) * |sep| + |sep|;
    }
  }

  /** Sum of the lengths of `parts`. */
  function TotalLength(parts: seq<string>): nat {
    if parts == [] then 0 else TotalLength(parts[..|parts| - 1]) + |parts[|parts| - 1]|
  }
}
