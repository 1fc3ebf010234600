/** Lexicographic order on sequences, as Rust's `Ord` on `String`, `Vec` and tuples. */
module Ordering {

  ghost predicate TotalOrder<T(!new)>(le: (T, T) -> bool) {
    && (forall a :: le(a, a))
    && (forall a, b :: le(a, b) || le(b, a))
    && (forall a, b :: le(a, b) && le(b, a) ==> a == b)
    && (forall a, b, c :: le(a, b) && le(b, c) ==> le(a, c))
  }

  predicate Lex<T(==)>(le: (T, T) -> bool, a: seq<T>, b: seq<T>) {
    a == [] || (b != [] && if a[0] == b[0] then Lex(le, a[1..], b[1..]) else le(a[0], b[0]))
  }

  lemma {:induction false} LexTotal<T(!new)>(le: (T, T) -> bool, a: seq<T>, b: seq<T>)
    requires TotalOrder(le)
    ensures Lex(le, a, a)
    ensures Lex(le, a, b) || Lex(le, b, a)
    ensures Lex(le, a, b) && Lex(le, b, a) ==> a == b
  {
    if a == [] {
    } else {
      LexTotal(le, a[1..], if b == [] then [] else b[1..]);
      if b != [] && a[0] == b[0] && a[1..] == b[1..] {
        assert a == [a[0]] + a[1..] == [b[0]] + b[1..] == b;
      }
    }
  }

  lemma {:induction false} LexTransitive<T(!new)>(le: (T, T) -> bool, a: seq<T>, b: seq<T>, c: seq<T>)
    requires TotalOrder(le)
    requires Lex(le, a, b) && Lex(le, b, c)
    ensures Lex(le, a, c)
  {
    if a != [] && a[0] == b[0] == c[0] {
      LexTransitive(le, a[1..], b[1..], c[1..]);
    }
  }

  /** Lexicographic order is decided at the first place where the sequences differ; a proper prefix
      comes first. */
  lemma {:induction false} LexIs<T>(le: (T, T) -> bool, a: seq<T>, b: seq<T>)
    ensures Lex(le, a, b) <==>
            a <= b || exists i :: 0 <= i < |a| && i < |b| && a[..i] == b[..i] && a[i] != b[i] && le(a[i], b[i])
  {
    if a == [] || b == [] || a[0] != b[0] {
      if a != [] && b != [] {
        assert a[..0] == b[..0];
        forall i | 0 < i < |a| && i < |b| ensures a[..i] != b[..i] {
          assert a[..i][0] != b[..i][0];
        }
      }
    } else {
      var x, y := a[1..], b[1..];
      LexIs(le, x, y);
      assert a == [a[0]] + x && b == [b[0]] + y;
      forall i | 0 <= i < |x| && i < |y| ensures x[..i] == y[..i] <==> a[..i + 1] == b[..i + 1] {
        assert a[..i + 1] == [a[0]] + x[..i] && b[..i + 1] == [b[0]] + y[..i];
        assert a[..i + 1][1..] == x[..i] && b[..i + 1][1..] == y[..i];
      }
      if i :| 0 <= i < |x| && i < |y| && x[..i] == y[..i] && x[i] != y[i] && le(x[i], y[i]) {
        assert a[..i + 1] == b[..i + 1] && a[i + 1] == x[i] && b[i + 1] == y[i];
      }
      if i :| 0 <= i < |a| && i < |b| && a[..i] == b[..i] && a[i] != b[i] && le(a[i], b[i]) {
        assert i > 0 && x[i - 1] == a[i] && y[i - 1] == b[i] && a[..i - 1 + 1] == b[..i - 1 + 1];
      }
    }
  }

  const CHAR_LE := (a: char, b: char) => a <= b

  predicate StringLe(a: string, b: string) {
    Lex(CHAR_LE, a, b)
  }

  /** Names are in ascending order of their characters, a prefix first. */
  lemma StringLeIs(a: string, b: string)
    ensures StringLe(a, b) <==>
            a <= b || exists i :: 0 <= i < |a| && i < |b| && a[..i] == b[..i] && a[i] < b[i]
  {
    LexIs(CHAR_LE, a, b);
    if i :| 0 <= i < |a| && i < |b| && a[..i] == b[..i] && a[i] < b[i] {
      assert a[i] != b[i] && CHAR_LE(a[i], b[i]);
    }
  }

  lemma StringOrder()
    ensures TotalOrder(StringLe)
  {
    forall a: string, b: string, c: string
      ensures StringLe(a, a) && (StringLe(a, b) || StringLe(b, a))
      ensures StringLe(a, b) && StringLe(b, a) ==> a == b
      ensures StringLe(a, b) && StringLe(b, c) ==> StringLe(a, c)
    {
      LexTotal(CHAR_LE, a, b);
      if StringLe(a, b) && StringLe(b, c) {
        LexTransitive(CHAR_LE, a, b, c);
      }
    }
  }

  /** A non-empty finite set has a least member under a total order. */
  lemma {:induction false} LeastExists<T(!new)>(le: (T, T) -> bool, s: set<T>)
    requires TotalOrder(le) && s != {}
    ensures exists least :: least in s && forall x :: x in s ==> le(least, x)
    decreases s
  {
    var y :| y in s;
    if s != {y} {
      LeastExists(le, s - {y});
      var rest :| rest in s - {y} && forall x :: x in s - {y} ==> le(rest, x);
      var least := if le(y, rest) then y else rest;
      assert least in s && forall x :: x in s ==> le(least, x);
    } else {
      assert y in s && forall x :: x in s ==> le(y, x);
    }
  }
}
