/** Shared vocabulary: optional values, machine-word ranges and the byte-wise
    lexicographic comparison that the source uses for strings, addresses and tags. */
module Base {

  datatype Option<+T> = None | Some(value: T)

  type uint8 = n: int | 0 <= n < 0x100
  type uint16 = n: int | 0 <= n < 0x1_0000
  type uint32 = n: int | 0 <= n < 0x1_0000_0000

  /** utils.CompareInts */
  function CompareInts(a: int, b: int): int {
    if a < b then -1 else if a > b then 1 else 0
  }

  function CharKey(c: char): int { c as int }

  function BitKey(b: bool): int { if b then 1 else 0 }

  function IntKey(n: int): int { n }

  ghost predicate Injective<T(!new)>(key: T -> int) {
    forall x, y :: key(x) == key(y) ==> x == y
  }

  /** Lexicographic three-way comparison: a proper prefix sorts first. */
  function Lex<T>(key: T -> int, a: seq<T>, b: seq<T>): int {
    if a == [] then (if b == [] then 0 else -1)
    else if b == [] then 1
    else
      var c := CompareInts(key(a[0]), key(b[0]));
      if c != 0 then c else Lex(key, a[1..], b[1..])
  }

  lemma {:induction false} LexAntisymmetric<T>(key: T -> int, a: seq<T>, b: seq<T>)
    ensures Lex(key, a, b) == -Lex(key, b, a)
    ensures Lex(key, a, a) == 0
  {
    if a != [] {
      LexAntisymmetric(key, a[1..], if b == [] then [] else b[1..]);
    }
  }

  lemma {:induction false} LexTransitive<T>(key: T -> int, a: seq<T>, b: seq<T>, c: seq<T>)
    requires Lex(key, a, b) <= 0 && Lex(key, b, c) <= 0
    ensures Lex(key, a, c) <= 0
    ensures Lex(key, a, c) == 0 ==> Lex(key, a, b) == 0 && Lex(key, b, c) == 0
  {
    if a != [] && b != [] && c != [] {
      if key(a[0]) == key(b[0]) == key(c[0]) {
        LexTransitive(key, a[1..], b[1..], c[1..]);
      }
    }
  }

  lemma {:induction false} LexZero<T(!new)>(key: T -> int, a: seq<T>, b: seq<T>)
    requires Injective(key)
    ensures Lex(key, a, b) == 0 <==> a == b
  {
    if a != [] && b != [] {
      LexZero(key, a[1..], b[1..]);
      assert a == [a[0]] + a[1..] && b == [b[0]] + b[1..];
    }
  }

  lemma {:induction false} LexSign<T>(key: T -> int, a: seq<T>, b: seq<T>)
    ensures -1 <= Lex(key, a, b) <= 1
  {
    if a != [] && b != [] { LexSign(key, a[1..], b[1..]); }
  }

  /** The first difference decides, and a proper prefix sorts first. */
  lemma {:induction false} LexFirstDifference<T>(key: T -> int, a: seq<T>, b: seq<T>, k: nat)
    requires k <= |a| && k <= |b| && a[..k] == b[..k]
    ensures k < |a| && k < |b| && key(a[k]) < key(b[k]) ==> Lex(key, a, b) == -1
    ensures k < |a| && k < |b| && key(a[k]) > key(b[k]) ==> Lex(key, a, b) == 1
    ensures k == |a| < |b| ==> Lex(key, a, b) == -1
    ensures k == |b| < |a| ==> Lex(key, a, b) == 1
  {
    if k > 0 {
      assert a[0] == a[..k][0] == b[0];
      assert a[1..][..k - 1] == a[..k][1..] && b[1..][..k - 1] == b[..k][1..];
      LexFirstDifference(key, a[1..], b[1..], k - 1);
    }
  }

  lemma KeysInjective()
    ensures Injective(CharKey) && Injective(BitKey) && Injective(IntKey)
  {
  }

  /** The concatenation of the images of the elements, in order. */
  function FlatMap<A, B>(f: A -> seq<B>, s: seq<A>): seq<B> {
    if s == [] then [] else FlatMap(f, s[..|s| - 1]) + f(s[|s| - 1])
  }

  lemma FlatMapEmpty<A, B>(f: A -> seq<B>, s: seq<A>)
    requires s == []
    ensures FlatMap(f, s) == []
  {
  }

  lemma FlatMapOne<A, B>(f: A -> seq<B>, x: A)
    ensures FlatMap(f, [x]) == f(x)
  {
    assert [x][..0] == [];
  }

  lemma FlatMapSnoc<A, B>(f: A -> seq<B>, s: seq<A>, i: nat)
    requires i < |s|
    ensures FlatMap(f, s[..i + 1]) == FlatMap(f, s[..i]) + f(s[i])
  {
    assert s[..i + 1][..i] == s[..i];
  }

  lemma {:induction false} FlatMapConcat<A, B>(f: A -> seq<B>, s: seq<A>, t: seq<A>)
    ensures FlatMap(f, s + t) == FlatMap(f, s) + FlatMap(f, t)
  {
    if t == [] {
      assert s + t == s;
    } else {
      FlatMapConcat(f, s, t[..|t| - 1]);
      assert (s + t)[..|s + t| - 1] == s + t[..|t| - 1];
      assert (s + t)[|s + t| - 1] == t[|t| - 1];
    }
  }

  lemma {:induction false} FlatMapMember<A, B>(f: A -> seq<B>, s: seq<A>, y: B)
    ensures y in FlatMap(f, s) <==> exists x :: x in s && y in f(x)
  {
    if s != [] {
      var init, last := s[..|s| - 1], s[|s| - 1];
      FlatMapMember(f, init, y);
      assert s == init + [last];
      if y in FlatMap(f, init) {
        var x :| x in init && y in f(x);
        assert x in s;
      }
      assert last in s;
    }
  }

  // ----- Slices with unused slots at the end -----

  predicate Slots<T>(items: seq<Option<T>>, n: nat) {
    && n <= |items|
    && (forall i :: 0 <= i < n ==> items[i].Some?)
    && (forall i :: n <= i < |items| ==> items[i].None?)
  }

  function Values<T>(items: seq<Option<T>>, n: nat): (s: seq<T>)
    requires Slots(items, n)
    ensures |s| == n
  {
    seq(n, i requires 0 <= i < n => items[i].value)
  }

  lemma ShiftRight<T>(items: seq<Option<T>>, n: nat, idx: nat, r: T)
    requires Slots(items, n) && idx <= n < |items|
    ensures var shifted := items[..idx] + [Some(r)] + items[idx..|items| - 1];
            && Slots(shifted, n + 1)
            && Values(shifted, n + 1) == Values(items, n)[..idx] + [r] + Values(items, n)[idx..]
  {
  }

  lemma ShiftLeft<T>(items: seq<Option<T>>, n: nat, idx: nat)
    requires Slots(items, n) && idx < n
    ensures var shifted := (items[..idx] + items[idx + 1..] + [items[|items| - 1]])[n - 1 := None];
            && Slots(shifted, n - 1)
            && Values(shifted, n - 1) == Values(items, n)[..idx] + Values(items, n)[idx + 1..]
  {
  }

  lemma GrowSlots<T>(items: seq<Option<T>>, n: nat)
    requires Slots(items, n)
    ensures Slots(items + [None], n) && Values(items + [None], n) == Values(items, n)
  {
  }

  /** What insert does to the slots. */
  function InsertedSlots<T>(items: seq<Option<T>>, n: nat, idx: nat, r: T): seq<Option<T>>
    requires Slots(items, n) && idx <= n
  {
    var grown := if n == |items| then items + [None] else items;
    grown[..idx] + [Some(r)] + grown[idx..|grown| - 1]
  }

  lemma InsertedValues<T>(items: seq<Option<T>>, n: nat, idx: nat, r: T)
    requires Slots(items, n) && idx <= n
    ensures Slots(InsertedSlots(items, n, idx, r), n + 1)
    ensures Values(InsertedSlots(items, n, idx, r), n + 1) == Values(items, n)[..idx] + [r] + Values(items, n)[idx..]
  {
    GrowSlots(items, n);
    ShiftRight(if n == |items| then items + [None] else items, n, idx, r);
  }

  lemma Nonempty(s: set<int>)
    requires s != {}
    ensures exists x :: x in s
  {
    assert (forall x :: x !in s) ==> s == {};
  }

  // ----- Division -----

  lemma ModIs(a: int, m: int, q: int, r: int)
    requires m >= 1 && a == m * q + r && 0 <= r < m
    ensures a % m == r && a / m == q
  {
    var q', r' := a / m, a % m;
    assert a == m * q' + r';
    SameQuotient(m, q, r, q', r');
  }

  lemma SameQuotient(m: int, q: int, r: int, q': int, r': int)
    requires m >= 1 && 0 <= r < m && 0 <= r' < m && m * q + r == m * q' + r'
    ensures q == q' && r == r'
  {
    Times(m, q - q');
    assert m * (q - q') == m * q - m * q';
  }

  lemma Times(m: int, k: int)
    requires m >= 1
    ensures k >= 1 ==> m * k >= m
    ensures k <= -1 ==> m * k <= -m
    ensures k == 0 ==> m * k == 0
  {
    if k >= 1 {
      assert m * k == m + m * (k - 1);
    } else if k <= -1 {
      assert m * k == -m + m * (k + 1);
    }
  }
}
