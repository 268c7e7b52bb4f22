/** The ordering behind every `std::sort` call of the menus. Each source
    comparator is an if-chain over a few fields (a rank, a size, a name under
    `strcasecmp`, ...); each is shown elsewhere to be the lexicographic
    comparison of a key, a sequence of `Part`s, built from the entry. This
    module proves that key comparison a strict order and gives a sort that
    returns a permutation of its input with no inversion. `std::sort` is not
    stable, so that pair of properties is all a caller may rely on. */
module Sorting {
  import opened Text

  /** One field of a sort key: a number compared ascending, a text compared
      ascending under `strcasecmp`, or a text compared descending. */
  datatype Part = Num(n: int) | Txt(s: string) | RevTxt(s: string)

  type Key = seq<Part>

  /** A part with its text case-folded; two parts compare equal exactly when
      their canonical forms are the same. */
  function Canon(p: Part): Part {
    match p
    case Num(n) => Num(n)
    case Txt(s) => Txt(LowerStr(s))
    case RevTxt(s) => RevTxt(LowerStr(s))
  }

  function Tag(p: Part): nat {
    match p
    case Num(_) => 0
    case Txt(_) => 1
    case RevTxt(_) => 2
  }

  /** Comparison of two canonical parts. Parts of different kinds never meet
      in one comparator; they are ordered by kind only to keep the order total. */
  function RawCmp(a: Part, b: Part): Ord {
    if Tag(a) != Tag(b) then (if Tag(a) < Tag(b) then Less else Greater)
    else match a
      case Num(n) => (if n < b.n then Less else if n > b.n then Greater else Equal)
      case Txt(s) => LexCmp(s, b.s)
      case RevTxt(s) => LexCmp(b.s, s)
  }

  function PartCmp(a: Part, b: Part): Ord {
    RawCmp(Canon(a), Canon(b))
  }

  /** Lexicographic "strictly before" on keys. */
  predicate KeyLess(a: Key, b: Key) {
    if a == [] || b == [] then false
    else match PartCmp(a[0], b[0])
      case Less => true
      case Greater => false
      case Equal => KeyLess(a[1..], b[1..])
  }

  /** Comparing keys that start with one part each. */
  lemma KeyLessCons(p: Part, q: Part, a: Key, b: Key)
    ensures KeyLess([p] + a, [q] + b) ==
      match PartCmp(p, q)
      case Less => true
      case Greater => false
      case Equal => KeyLess(a, b)
  {
    assert ([p] + a)[0] == p && ([p] + a)[1..] == a;
    assert ([q] + b)[0] == q && ([q] + b)[1..] == b;
  }

  lemma RawCmpEqual(a: Part, b: Part)
    ensures RawCmp(a, b) == Equal <==> a == b
  {
    if Tag(a) == Tag(b) {
      match a
      case Num(_) =>
      case Txt(s) => LexCmpEqual(s, b.s);
      case RevTxt(s) => LexCmpEqual(b.s, s);
    }
  }

  lemma RawCmpTrans(a: Part, b: Part, c: Part)
    requires RawCmp(a, b) == Less && RawCmp(b, c) == Less
    ensures RawCmp(a, c) == Less
  {
    if Tag(a) == Tag(b) == Tag(c) {
      match a
      case Num(_) =>
      case Txt(s) => LexCmpTrans(s, b.s, c.s);
      case RevTxt(s) => LexCmpTrans(c.s, b.s, s);
    }
  }

  lemma PartCmpEqual(a: Part, b: Part)
    ensures PartCmp(a, b) == Equal <==> Canon(a) == Canon(b)
  {
    RawCmpEqual(Canon(a), Canon(b));
  }

  lemma PartCmpTrans(a: Part, b: Part, c: Part)
    requires PartCmp(a, b) == Less && PartCmp(b, c) == Less
    ensures PartCmp(a, c) == Less
  {
    RawCmpTrans(Canon(a), Canon(b), Canon(c));
  }

  /** No key comes strictly before itself. */
  lemma {:induction false} KeyLessIrreflexive(a: Key)
    ensures !KeyLess(a, a)
  {
    if a != [] {
      PartCmpEqual(a[0], a[0]);
      KeyLessIrreflexive(a[1..]);
    }
  }

  /** "Strictly before" is transitive. */
  lemma {:induction false} KeyLessTrans(a: Key, b: Key, c: Key)
    requires KeyLess(a, b) && KeyLess(b, c)
    ensures KeyLess(a, c)
  {
    var ab, bc := PartCmp(a[0], b[0]), PartCmp(b[0], c[0]);
    PartCmpEqual(a[0], b[0]);
    PartCmpEqual(b[0], c[0]);
    PartCmpEqual(a[0], c[0]);
    if ab == Less && bc == Less {
      PartCmpTrans(a[0], b[0], c[0]);
    } else if ab == Equal && bc == Equal {
      KeyLessTrans(a[1..], b[1..], c[1..]);
    }
  }

  /** Both keys cannot come strictly before each other. */
  lemma KeyLessAsymmetric(a: Key, b: Key)
    requires KeyLess(a, b)
    ensures !KeyLess(b, a)
  {
    if KeyLess(b, a) {
      KeyLessTrans(a, b, a);
      KeyLessIrreflexive(a);
    }
  }

  // ---------------------------------------------------------------------
  // Sorting index lists

  /** Every element of an index list is below `n`. */
  predicate Within(s: seq<nat>, n: nat) {
    forall k :: 0 <= k < |s| ==> s[k] < n
  }

  /** Every element is a valid index into the key table. */
  predicate Indices(s: seq<nat>, keys: seq<Key>) {
    forall i :: 0 <= i < |s| ==> s[i] < |keys|
  }

  /** No later element comes strictly before an earlier one: what `std::sort`
      with a strict weak ordering guarantees. */
  predicate SortedBy(s: seq<nat>, keys: seq<Key>)
    requires Indices(s, keys)
  {
    forall i, j :: 0 <= i < j < |s| ==> !KeyLess(keys[s[j]], keys[s[i]])
  }

  /** `x` inserted into `r` before the first element that it comes strictly
      before (at the end when there is none). */
  function Insert(x: nat, r: seq<nat>, keys: seq<Key>): (t: seq<nat>)
    requires x < |keys| && Indices(r, keys)
    ensures Indices(t, keys)
    ensures multiset(t) == multiset(r) + multiset{x}
    ensures SortedBy(r, keys) ==> SortedBy(t, keys)
  {
    if r == [] then [x]
    else if KeyLess(keys[x], keys[r[0]]) then
      InsertFront(x, r, keys);
      [x] + r
    else
      var u := Insert(x, r[1..], keys);
      MultisetCons(r);
      InsertBehind(x, r, u, keys);
      [r[0]] + u
  }

  /** The head of a sorted list stays first when `x`, which does not come
      strictly before it, is inserted into the tail. */
  lemma InsertBehind(x: nat, r: seq<nat>, u: seq<nat>, keys: seq<Key>)
    requires x < |keys| && Indices(r, keys) && Indices(u, keys) && r != []
    requires !KeyLess(keys[x], keys[r[0]])
    requires multiset(u) == multiset(r[1..]) + multiset{x}
    requires SortedBy(r, keys) ==> SortedBy(u, keys)
    ensures SortedBy(r, keys) ==> SortedBy([r[0]] + u, keys)
  {
    if SortedBy(r, keys) {
      forall k | 0 <= k < |u| ensures !KeyLess(keys[u[k]], keys[r[0]]) {
        assert u[k] in multiset(u);
        if u[k] != x {
          assert u[k] in multiset(r[1..]);
          var m :| 0 <= m < |r[1..]| && r[1..][m] == u[k];
          assert r[m + 1] == u[k];
        }
      }
      var t := [r[0]] + u;
      forall i, j | 0 <= i < j < |t| ensures !KeyLess(keys[t[j]], keys[t[i]]) {
        if i > 0 {
          assert t[i] == u[i - 1] && t[j] == u[j - 1];
        } else {
          assert t[j] == u[j - 1];
        }
      }
    }
  }

  /** Putting `x` in front of a sorted list whose head `x` comes strictly
      before keeps it sorted. */
  lemma InsertFront(x: nat, r: seq<nat>, keys: seq<Key>)
    requires x < |keys| && Indices(r, keys) && r != []
    requires KeyLess(keys[x], keys[r[0]])
    ensures SortedBy(r, keys) ==> SortedBy([x] + r, keys)
  {
    if SortedBy(r, keys) {
      var t := [x] + r;
      forall i, j | 0 <= i < j < |t| ensures !KeyLess(keys[t[j]], keys[t[i]]) {
        if i == 0 && KeyLess(keys[t[j]], keys[x]) {
          KeyLessTrans(keys[t[j]], keys[x], keys[r[0]]);
          if j == 1 {
            KeyLessIrreflexive(keys[r[0]]);
          }
        }
      }
    }
  }

  lemma MultisetCons(s: seq<nat>)
    requires s != []
    ensures multiset(s) == multiset(s[1..]) + multiset{s[0]}
  {
    assert s == [s[0]] + s[1..];
  }

  /** Insertion sort: a permutation of `s` with no inversion. */
  function SortBy(s: seq<nat>, keys: seq<Key>): (t: seq<nat>)
    requires Indices(s, keys)
    ensures Indices(t, keys)
    ensures multiset(t) == multiset(s)
    ensures SortedBy(t, keys)
  {
    if s == [] then []
    else
      var t := Insert(s[0], SortBy(s[1..], keys), keys);
      MultisetCons(s);
      t
  }

  /** In a sorted list an element whose key comes strictly before another's
      sits at a smaller position. */
  lemma SortedPair(s: seq<nat>, keys: seq<Key>, i: nat, j: nat)
    requires Indices(s, keys) && SortedBy(s, keys)
    requires i < |s| && j < |s| && KeyLess(keys[s[i]], keys[s[j]])
    ensures i < j
  {
    if j == i {
      KeyLessIrreflexive(keys[s[i]]);
    }
  }

  /** The sort keys of a list of entries, one per entry, computed by `key`. */
  function KeysOf<T>(es: seq<T>, key: T -> Key): (ks: seq<Key>)
    ensures |ks| == |es| && forall i :: 0 <= i < |es| ==> ks[i] == key(es[i])
  {
    seq(|es|, i requires 0 <= i < |es| => key(es[i]))
  }
}
