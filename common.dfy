/** Small shared vocabulary: an optional value, integer min/max, sequence
    helpers and the ASCII lower-casing used by the palette lookups. */
module Common {

  datatype Option<T> = None | Some(value: T)

  function Min(a: int, b: int): int { if a <= b then a else b }

  function Max(a: int, b: int): int { if a >= b then a else b }

  /** No element occurs twice. */
  ghost predicate Distinct<T>(s: seq<T>) {
    forall i, j :: 0 <= i < j < |s| ==> s[i] != s[j]
  }

  /** Position of the first occurrence of `x`. */
  function IndexOf<T(==)>(s: seq<T>, x: T): (i: nat)
    requires x in s
    ensures i < |s| && s[i] == x
    ensures forall j :: 0 <= j < i ==> s[j] != x
  {
    if s[0] == x then 0 else 1 + IndexOf(s[1..], x)
  }

  /** Appending keeps the first position of an element already present. */
  lemma IndexOfAppend<T>(s: seq<T>, x: T, c: T)
    requires c in s
    ensures IndexOf(s + [x], c) == IndexOf(s, c)
  {
    var i := IndexOf(s, c);
    assert (s + [x])[i] == c;
    var k := IndexOf(s + [x], c);
    assert k <= i;
    assert s[k] == (s + [x])[k];
  }

  /** An element appended to a sequence without it is found at the end. */
  lemma IndexOfAppendNew<T>(s: seq<T>, x: T)
    requires x !in s
    ensures IndexOf(s + [x], x) == |s|
  {
  }

  /** Taking one more element of a prefix appends it. */
  lemma TakeSnoc<T>(s: seq<T>, i: nat)
    requires i < |s|
    ensures s[..i + 1] == s[..i] + [s[i]]
  {
  }
  /** The prefix of full length is the whole sequence. */
  lemma TakeAll<T>(s: seq<T>)
    ensures s[..|s|] == s
  {
  }
  /** The empty prefix. */
  lemma TakeNone<T>(s: seq<T>)
    ensures s[..0] == []
  {
  }
  /** A sequence without repetitions has as many elements as its set. */
  lemma {:induction false} DistinctCardinality<T>(s: seq<T>)
    requires Distinct(s)
    ensures |set x | x in s| == |s|
  {
    if s != [] {
      var rest := s[1..];
      assert Distinct(rest) by {
        forall i, j | 0 <= i < j < |rest| ensures rest[i] != rest[j] {
          assert rest[i] == s[i + 1] && rest[j] == s[j + 1];
        }
      }
      DistinctCardinality(rest);
      assert s[0] !in rest by {
        forall i | 0 <= i < |rest| ensures rest[i] != s[0] {
          assert rest[i] == s[i + 1];
        }
      }
      assert (set x | x in s) == (set x | x in rest) + {s[0]} by {
        assert s == [s[0]] + rest;
      }
    }
  }

  /** A set never has more elements than a sequence listing all of them. */
  lemma {:induction false} SubsetOfSeqCardinality<T>(a: set<T>, s: seq<T>)
    requires forall x :: x in a ==> x in s
    ensures |a| <= |s|
  {
    if s == [] {
      assert a == {};
    } else {
      var rest := s[1..];
      var a' := a - {s[0]};
      forall x | x in a' ensures x in rest {
        var i := IndexOf(s, x);
        assert i != 0;
        assert rest[i - 1] == x;
      }
      SubsetOfSeqCardinality(a', rest);
    }
  }

  /** A product with a positive factor is positive only if the other factor is. */
  lemma PositiveFactor(a: int, m: int)
    requires m > 0 && a * m > 0
    ensures a > 0
  {
  }

  /** Multiplying by a non-negative number keeps the order. */
  lemma MulMonotone(a: int, b: int, c: int)
    requires a >= 0 && b <= c
    ensures a * b <= a * c
  {
    assert a * c - a * b == a * (c - b);
  }

  /** The rows of a matrix, one after the other. */
  function Flatten<T>(m: seq<seq<T>>): seq<T> {
    if m == [] then [] else Flatten(m[..|m| - 1]) + m[|m| - 1]
  }

  /** One more row appends its elements. */
  lemma FlattenSnoc<T>(m: seq<seq<T>>, y: nat)
    requires y < |m|
    ensures Flatten(m[..y + 1]) == Flatten(m[..y]) + m[y]
  {
    assert m[..y + 1][..y] == m[..y];
  }

  /** In a matrix of rows of width `w`, element (y, x) sits at `y * w + x`. */
  lemma {:induction false} FlattenIndex<T>(m: seq<seq<T>>, w: nat, y: nat, x: nat)
    requires forall i :: 0 <= i < |m| ==> |m[i]| == w
    requires y < |m| && x < w
    ensures |Flatten(m)| == |m| * w
    ensures y * w + x < |Flatten(m)| && Flatten(m)[y * w + x] == m[y][x]
  {
    var init := m[..|m| - 1];
    if y < |m| - 1 {
      FlattenIndex(init, w, y, x);
      assert Flatten(m) == Flatten(init) + m[|m| - 1];
    } else {
      if init != [] {
        FlattenIndex(init, w, 0, 0);
      }
      assert |Flatten(init)| == y * w;
    }
  }

  /** `toLowerCase` restricted to the ASCII letters. */
  function LowerChar(c: char): char {
    if 'A' <= c <= 'Z' then (c as int + 32) as char else c
  }

  function ToLower(s: string): (r: string)
    ensures |r| == |s|
    ensures forall i :: 0 <= i < |s| ==> r[i] == LowerChar(s[i])
  {
    seq(|s|, i requires 0 <= i < |s| => LowerChar(s[i]))
  }

  /** Two strings that agree after lower-casing, as `a.toLowerCase() === b.toLowerCase()`. */
  predicate SameIgnoringCase(a: string, b: string) {
    ToLower(a) == ToLower(b)
  }
}
