/** Hash buckets as sequences. Links are intrusive in the source (an object carries its
    own list node), so an object is in a list at most once and unlinking needs no bucket
    number. */
module Buckets {
  import opened Types

  ghost predicate NoDup<T>(s: seq<T>) { forall i, j | 0 <= i < j < |s| :: s[i] != s[j] }

  /** hlist_del: the list without x. */
  function Without<T(==)>(s: seq<T>, x: T): (r: seq<T>)
    ensures |r| <= |s|
    ensures forall y | y in r :: y in s && y != x
    ensures forall y | y in s && y != x :: y in r
  {
    if s == [] then []
    else
      var rest := Without(s[1..], x);
      assert forall y | y in s :: y == s[0] || y in s[1..];
      if s[0] == x then rest else [s[0]] + rest
  }

  lemma {:induction false} WithoutNoDup<T>(s: seq<T>, x: T)
    requires NoDup(s)
    ensures NoDup(Without(s, x))
  {
    if s == [] {
    } else {
      assert forall i | 0 <= i < |s[1..]| :: s[1..][i] == s[i + 1];
      WithoutNoDup(s[1..], x);
      assert s[0] !in s[1..];
    }
  }

  /** hlist_del over a whole table: x is unlinked wherever it is linked. */
  function Unlink<T(==)>(t: seq<seq<T>>, x: T): (r: seq<seq<T>>)
    ensures |r| == |t|
    ensures forall b | 0 <= b < |t| :: r[b] == Without(t[b], x)
  {
    seq(|t|, b requires 0 <= b < |t| => Without(t[b], x))
  }

  function AddHead<T>(t: seq<seq<T>>, b: nat, x: T): (r: seq<seq<T>>)
    requires b < |t|
    ensures |r| == |t| && r[b] == [x] + t[b]
    ensures forall c | 0 <= c < |t| && c != b :: r[c] == t[c]
  {
    t[b := [x] + t[b]]
  }

  lemma AddHeadNoDup<T>(t: seq<seq<T>>, b: nat, x: T)
    requires b < |t| && x !in t[b] && forall c | 0 <= c < |t| :: NoDup(t[c])
    ensures forall c | 0 <= c < |t| :: NoDup(AddHead(t, b, x)[c])
    ensures forall c, y | 0 <= c < |t| ::
              y in AddHead(t, b, x)[c] <==> y in t[c] || (y == x && c == b)
  {
    forall c | 0 <= c < |t| ensures NoDup(AddHead(t, b, x)[c]) {
      if c == b { assert forall i | 0 < i <= |t[b]| :: ([x] + t[b])[i] == t[b][i - 1]; }
    }
  }

  /** Place of a linked rule in the detection order: its precedence, then how recently
      it was linked. */
  datatype Rank = Rank(precedence: u32, stamp: nat)

  predicate Ahead(a: Rank, b: Rank) {
    a.precedence < b.precedence || (a.precedence == b.precedence && a.stamp > b.stamp)
  }

  /** Strictly ordered by rank; in particular without repetitions. */
  ghost predicate Ordered<T>(s: seq<T>, rank: map<T, Rank>) {
    && (forall y | y in s :: y in rank)
    && forall i, j | 0 <= i < j < |s| :: Ahead(rank[s[i]], rank[s[j]])
  }

  lemma {:induction false} WithoutOrdered<T>(s: seq<T>, x: T, rank: map<T, Rank>)
    requires Ordered(s, rank)
    ensures Ordered(Without(s, x), rank)
  {
    if s == [] {
    } else {
      var t := s[1..];
      assert forall i | 0 <= i < |t| :: t[i] == s[i + 1];
      WithoutOrdered(t, x, rank);
      var r := Without(t, x);
      forall k | 0 <= k < |r| ensures Ahead(rank[s[0]], rank[r[k]]) {
        assert r[k] in t;
        var j :| 0 <= j < |t| && t[j] == r[k];
        assert s[j + 1] == r[k];
      }
    }
  }

  lemma OrderedNoDup<T>(s: seq<T>, rank: map<T, Rank>)
    requires Ordered(s, rank)
    ensures NoDup(s)
  {}

  /** Giving an absent object a new rank does not disturb a list. */
  lemma OrderedFrame<T>(s: seq<T>, rank: map<T, Rank>, x: T, r: Rank)
    requires Ordered(s, rank) && x !in s
    ensures Ordered(s, rank[x := r])
  {
    var rank' := rank[x := r];
    forall i, j | 0 <= i < j < |s| ensures Ahead(rank'[s[i]], rank'[s[j]]) {
      assert s[i] in s && s[j] in s;
    }
  }

  lemma OrderedFrameAll<T>(t: seq<seq<T>>, rank: map<T, Rank>, x: T, r: Rank)
    requires forall b | 0 <= b < |t| :: Ordered(t[b], rank) && x !in t[b]
    ensures forall b | 0 <= b < |t| :: Ordered(t[b], rank[x := r])
  {
    forall b | 0 <= b < |t| ensures Ordered(t[b], rank[x := r]) { OrderedFrame(t[b], rank, x, r); }
  }

  lemma WithoutOrderedAll<T>(t: seq<seq<T>>, x: T, rank: map<T, Rank>)
    requires forall b | 0 <= b < |t| :: Ordered(t[b], rank)
    ensures forall b | 0 <= b < |t| :: Ordered(Unlink(t, x)[b], rank)
  {
    forall b | 0 <= b < |t| ensures Ordered(Unlink(t, x)[b], rank) { WithoutOrdered(t[b], x, rank); }
  }

  lemma WithoutNoDupAll<T>(t: seq<seq<T>>, x: T)
    requires forall b | 0 <= b < |t| :: NoDup(t[b])
    ensures forall b | 0 <= b < |t| :: NoDup(Unlink(t, x)[b])
  {
    forall b | 0 <= b < |t| ensures NoDup(Unlink(t, x)[b]) { WithoutNoDup(t[b], x); }
  }

  /** Inserting behind the last strictly smaller precedence keeps the order: the newcomer
      stands ahead of its equals because it is the most recent. */
  lemma OrderedInsert<T>(s: seq<T>, rank: map<T, Rank>, x: T, k: nat, r: Rank)
    requires Ordered(s, rank) && x !in s && k <= |s|
    requires forall i | 0 <= i < k :: rank[s[i]].precedence < r.precedence
    requires k < |s| ==> rank[s[k]].precedence >= r.precedence
    requires forall y | y in rank :: rank[y].stamp < r.stamp
    ensures Ordered(s[..k] + [x] + s[k..], rank[x := r])
  {
    OrderedFrame(s, rank, x, r);
    var rank', t := rank[x := r], s[..k] + [x] + s[k..];
    forall j | k <= j < |s| ensures Ahead(r, rank'[s[j]]) {
      assert s[j] in s;
      assert j > k ==> Ahead(rank[s[k]], rank[s[j]]);
    }
    forall i | 0 <= i < k ensures Ahead(rank'[s[i]], r) { assert s[i] in s; }
    forall i, j | 0 <= i < j < |t| ensures Ahead(rank'[t[i]], rank'[t[j]]) {
      var si := if i < k then i else i - 1;
      var sj := if j < k then j else j - 1;
      assert i != k ==> t[i] == s[si];
      assert j != k ==> t[j] == s[sj];
    }
  }
}
