/** The element-wise comparators of lectures/2-cmemorymodel/lec3.c. intcmp
    and stringcmp have the same body over int and char arrays; both are the
    one generic method Cmp below. */
module Compare {

  /** Position k lies in both arrays and holds the same element there. */
  predicate Agree<T(==)>(a: array<T>, b: array<T>, k: int)
    reads a, b
  {
    0 <= k < a.Length && 0 <= k < b.Length && a[k] == b[k]
  }

  /** Every position below n agrees (vacuously so when n <= 0). */
  predicate AgreeBelow<T(==)>(a: array<T>, b: array<T>, n: int)
    reads a, b
  {
    forall k :: 0 <= k < n ==> Agree(a, b, k)
  }

  /** The loop reads a[i] and b[i] only while every earlier position agreed,
      so each position below n that it can reach lies in both arrays. */
  predicate Reachable<T(==)>(a: array<T>, b: array<T>, n: int)
    reads a, b
  {
    forall i :: 0 <= i < n && AgreeBelow(a, b, i) ==> i < a.Length && i < b.Length
  }

  /** intcmp / stringcmp: compare a[i] with b[i] for i from 0 below n and
      return -1 at the first difference, 0 when there is none. Nothing past
      the first difference is read, so the arrays need to hold only the
      positions the loop reaches; nothing is written, and a '\0' in a char
      array is compared like any other element. */
  method Cmp<T(==)>(a: array<T>, b: array<T>, n: int) returns (r: int)
    requires Reachable(a, b, n)
    ensures r == 0 || r == -1
    ensures r == 0 <==> AgreeBelow(a, b, n)
    ensures r == -1 <==>
      exists i :: 0 <= i < n && AgreeBelow(a, b, i) && i < a.Length && i < b.Length && a[i] != b[i]
    ensures n <= 0 || (a == b && n <= a.Length) ==> r == 0
  {
    var i := 0;
    while i < n
      invariant 0 <= i && (i == 0 || i <= n)
      invariant AgreeBelow(a, b, i)
    {
      if a[i] != b[i] {
        assert !Agree(a, b, i);
        return -1;
      }
      ghost var here := Agree(a, b, i);
      i := i + 1;
    }
    assert n <= 0 || i == n;
    forall k | 0 <= k < n
      ensures a[k] == b[k]
    {
      assert Agree(a, b, k);
    }
    return 0;
  }

  /** main1's inputs: {1, 2, 3} against {1, 2, 4} differ on their three
      elements and agree on the first two; a char array agrees with itself
      past a '\0'; a count of 100 against a one-element array that differs at
      once stops there. */
  method CmpExamples() returns (two: int, three: int, self: int, early: int)
    ensures two == 0 && three == -1 && self == 0 && early == -1
  {
    var a := new int[3] [1, 2, 3];
    var b := new int[3] [1, 2, 4];
    two := Cmp(a, b, 2);
    assert a[2] != b[2];
    three := Cmp(a, b, 3);
    var s := new char[4] ['a', 'b', '\0', 'c'];
    self := Cmp(s, s, 4);
    var c := new int[1] [7];
    assert !Agree(a, c, 0);
    early := Cmp(a, c, 100);
  }
}
