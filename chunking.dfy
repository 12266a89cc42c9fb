/**
 * Pure helpers shared by the chunk store and the upload service: the byte
 * type, an optional value, ceiling division, index ranges, the sorted
 * listing of a set of chunk indices, and the split / concatenate pair on
 * which chunked transfer rests.
 */
module Chunking {

  /** One byte of a chunk payload. */
  newtype byte = b: int | 0 <= b < 256

  /** Python's `Optional[...]`: either nothing or a value. */
  datatype Option<+T> = None | Some(value: T)

  function Min2(a: int, b: int): int { if a <= b then a else b }

  // ---------------------------------------------------------------------
  // Ceiling division
  // ---------------------------------------------------------------------

  /** Ceiling of `a / b`, written the way the service computes the number of
      chunks: `(a + b - 1) // b`. For `a >= 0` and `b > 0` Dafny's and
      Python's integer division agree. The result is the least multiple
      count that covers `a`. */
  function CeilDiv(a: int, b: int): (r: int)
    requires a >= 0 && b > 0
    ensures r >= 0
    ensures a <= r * b < a + b
    ensures r == 0 <==> a == 0
  {
    var q := (a + b - 1) / b;
    assert a + b - 1 == q * b + (a + b - 1) % b;
    MulPositive(q, b);
    q
  }

  lemma MulMonotone(x: int, y: int, b: int)
    requires x <= y && b > 0
    ensures x * b <= y * b
  {
    assert y * b - x * b == (y - x) * b;
  }

  lemma MulPositive(q: int, b: int)
    requires b > 0
    ensures q > 0 ==> q * b >= b
  {
    if q > 0 {
      MulMonotone(1, q, b);
    }
  }

  /** The bounds `a <= r * b < a + b` determine the chunk count uniquely. */
  lemma CeilDivUnique(a: int, b: int, r: int)
    requires a >= 0 && b > 0
    requires a <= r * b < a + b
    ensures r == CeilDiv(a, b)
  {
    var q := CeilDiv(a, b);
    if r > q {
      assert (q + 1) * b == q * b + b;
      MulMonotone(q + 1, r, b);
    } else if r < q {
      assert (r + 1) * b == r * b + b;
      MulMonotone(r + 1, q, b);
    }
  }

  // ---------------------------------------------------------------------
  // Index ranges and sorted listings
  // ---------------------------------------------------------------------

  /** Python's `set(range(n))`: empty when `n <= 0`. */
  function Range(n: int): (s: set<int>)
    ensures forall i :: i in s <==> 0 <= i < n
    decreases n
  {
    if n <= 0 then {} else Range(n - 1) + {n - 1}
  }

  /** `range(n)` has exactly `n` members. */
  lemma {:induction false} RangeSize(n: nat)
    ensures |Range(n)| == n
  {
    if n == 0 {
      assert Range(n) == {};
    } else {
      RangeSize(n - 1);
      assert Range(n) == Range(n - 1) + {n - 1};
      CardAddOne(Range(n - 1), n - 1);
    }
  }

  /** A subset of `range(n)` with `n` members is all of `range(n)`, and
      conversely. */
  lemma {:induction false} FullSubsetOfRange(r: set<int>, n: int)
    ensures n >= 0 && r <= Range(n) ==> (|r| == n <==> r == Range(n))
  {
    if n >= 0 && r <= Range(n) {
      RangeSize(n);
      var all := Range(n);
      if |r| == n {
        assert |all - r| == |all| - |r|;
        if all - r != {} {
          NonEmptyHasMember(all - r);
          assert false;
        }
        assert all == r;
      }
    }
  }

  lemma CardAddOne(a: set<int>, x: int)
    requires x !in a
    ensures |a + {x}| == |a| + 1
  {
  }

  /** A non-empty set has a member (stated once, so that choosing one with
      `:|` needs no further argument). */
  lemma NonEmptyHasMember(s: set<int>)
    requires s != {}
    ensures exists x :: x in s
  {
    if forall x :: x !in s {
      assert false;
    }
  }

  predicate StrictlyIncreasing(r: seq<int>)
  {
    forall i, j :: 0 <= i < j < |r| ==> r[i] < r[j]
  }

  /** A list whose neighbours increase is strictly increasing. */
  lemma {:induction false} IncreasingByNeighbours(r: seq<int>)
    requires forall i :: 0 < i < |r| ==> r[i - 1] < r[i]
    ensures StrictlyIncreasing(r)
    decreases |r|
  {
    if |r| > 1 {
      var tail := r[1..];
      assert forall i :: 0 < i < |tail| ==> tail[i - 1] == r[i] && tail[i] == r[i + 1];
      IncreasingByNeighbours(tail);
      forall i, j | 0 <= i < j < |r| ensures r[i] < r[j] {
        if i > 0 {
          assert tail[i - 1] < tail[j - 1];
        } else if j > 1 {
          assert tail[0] < tail[j - 1];
        }
      }
    }
  }

  predicate IsLeast(m: int, s: set<int>)
  {
    forall x :: x in s ==> m <= x
  }

  lemma {:induction false} LeastExists(s: set<int>)
    requires s != {}
    ensures exists m :: m in s && IsLeast(m, s)
    decreases |s|
  {
    NonEmptyHasMember(s);
    var y :| y in s;
    if s == {y} {
      assert IsLeast(y, s);
    } else {
      LeastExists(s - {y});
      var m :| m in s - {y} && IsLeast(m, s - {y});
      var least := if y < m then y else m;
      forall x | x in s ensures least <= x {
        if x != y {
          assert x in s - {y};
        }
      }
      assert least in s && IsLeast(least, s);
    }
  }

  /** The least member of a non-empty finite set of indices. */
  function Least(s: set<int>): (m: int)
    requires s != {}
    ensures m in s && IsLeast(m, s)
  {
    LeastExists(s);
    var m :| m in s && IsLeast(m, s);
    m
  }

  /** Python's `sorted(s)` on a set of indices: the strictly increasing list
      with exactly the members of `s`. */
  function SortedOf(s: set<int>): (r: seq<int>)
    ensures StrictlyIncreasing(r)
    ensures forall x :: x in r <==> x in s
    ensures |r| == |s|
    decreases |s|
  {
    if s == {} then []
    else
      var m := Least(s);
      var rest := SortedOf(s - {m});
      assert forall k :: 0 <= k < |rest| ==> m < rest[k] by {
        forall k | 0 <= k < |rest| ensures m < rest[k] {
          assert rest[k] in s - {m};
        }
      }
      [m] + rest
  }

  /** Inserting a new index at its place keeps a listing strictly increasing. */
  function InsertSorted(r: seq<int>, x: int): (r': seq<int>)
    requires StrictlyIncreasing(r) && x !in r
    ensures StrictlyIncreasing(r')
    ensures forall y :: y in r' <==> y in r || y == x
    ensures |r'| == |r| + 1
    decreases |r|
  {
    if r == [] || x < r[0] then [x] + r
    else
      var rest := InsertSorted(r[1..], x);
      assert forall k :: 0 <= k < |rest| ==> r[0] < rest[k] by {
        forall k | 0 <= k < |rest| ensures r[0] < rest[k] {
          assert rest[k] in r[1..] || rest[k] == x;
          if rest[k] in r[1..] {
            var j :| 0 <= j < |r[1..]| && r[1..][j] == rest[k];
            assert r[j + 1] == rest[k];
          } else {
            assert x != r[0];
          }
        }
      }
      [r[0]] + rest
  }

  /** A strictly increasing list is determined by its set of members: any
      such list is the sorted listing of that set. */
  lemma {:induction false} SortedUnique(r: seq<int>, s: set<int>)
    requires StrictlyIncreasing(r)
    requires forall x :: x in r <==> x in s
    ensures r == SortedOf(s)
    decreases |r|
  {
    if r == [] {
      if s != {} {
        NonEmptyHasMember(s);
        assert false;
      }
    } else {
      var m := HeadIsLeast(r, s);
      var tail := r[1..];
      TailMembers(r, s);
      SortedUnique(tail, s - {m});
      SortedOfUnfold(s);
      ConsTail(r);
    }
  }

  /** Two strictly increasing lists with the same members are equal. */
  lemma IncreasingSameMembers(a: seq<int>, b: seq<int>)
    requires StrictlyIncreasing(a) && StrictlyIncreasing(b)
    requires forall x :: x in a <==> x in b
    ensures a == b
  {
    var s := set x | x in a;
    SortedUnique(a, s);
    SortedUnique(b, s);
  }

  lemma SortedOfUnfold(s: set<int>)
    requires s != {}
    ensures SortedOf(s) == [Least(s)] + SortedOf(s - {Least(s)})
  {
  }

  lemma ConsTail(r: seq<int>)
    requires r != []
    ensures r == [r[0]] + r[1..]
  {
  }

  lemma HeadIsLeast(r: seq<int>, s: set<int>) returns (m: int)
    requires r != [] && StrictlyIncreasing(r)
    requires forall x :: x in r <==> x in s
    ensures s != {} && m == Least(s) && r[0] == m
  {
    assert r[0] in r;
    m := Least(s);
    assert m in r;
  }

  lemma TailMembers(r: seq<int>, s: set<int>)
    requires r != [] && StrictlyIncreasing(r)
    requires forall x :: x in r <==> x in s
    ensures StrictlyIncreasing(r[1..])
    ensures forall x :: x in r[1..] <==> x in s - {r[0]}
  {
    var tail := r[1..];
    forall x ensures x in tail <==> x in s - {r[0]} {
      if x in tail {
        var j :| 0 <= j < |tail| && tail[j] == x;
        assert r[j + 1] == x;
        assert r[0] < r[j + 1];
      }
      if x in s - {r[0]} {
        assert x in r;
        var j :| 0 <= j < |r| && r[j] == x;
        assert j != 0;
        assert tail[j - 1] == x;
      }
    }
  }

  // ---------------------------------------------------------------------
  // Splitting a payload into chunks and putting it back together
  // ---------------------------------------------------------------------

  /** The chunks a client sends for `data`: consecutive slices of
      `chunkSize` bytes, the last one possibly shorter; an empty payload
      has no chunks. */
  function Split(data: seq<byte>, chunkSize: int): (parts: seq<seq<byte>>)
    requires chunkSize > 0
    ensures forall k :: 0 <= k < |parts| ==> 0 < |parts[k]| <= chunkSize
    decreases |data|
  {
    if |data| == 0 then []
    else if |data| <= chunkSize then [data]
    else [data[..chunkSize]] + Split(data[chunkSize..], chunkSize)
  }

  /** `Split` produces `ceil(|data| / chunkSize)` chunks. */
  lemma {:induction false} SplitCount(data: seq<byte>, chunkSize: int)
    requires chunkSize > 0
    ensures |Split(data, chunkSize)| == CeilDiv(|data|, chunkSize)
    decreases |data|
  {
    if |data| == 0 {
    } else if |data| <= chunkSize {
      CeilDivUnique(|data|, chunkSize, 1);
    } else {
      var rest := data[chunkSize..];
      SplitCount(rest, chunkSize);
      var n := CeilDiv(|rest|, chunkSize);
      assert (n + 1) * chunkSize == n * chunkSize + chunkSize;
      CeilDivUnique(|data|, chunkSize, n + 1);
    }
  }

  /** Chunk `k` of `Split(data, chunkSize)` is the slice
      `data[k * chunkSize : min(k * chunkSize + chunkSize, |data|)]`, the
      slicing the storage tests perform by hand. */
  lemma SplitSlice(data: seq<byte>, chunkSize: int, k: int)
    requires chunkSize > 0
    requires 0 <= k < |Split(data, chunkSize)|
    ensures k * chunkSize < |data|
    ensures Split(data, chunkSize)[k] == data[k * chunkSize .. Min2(k * chunkSize + chunkSize, |data|)]
  {
    SplitSliceAt(data, chunkSize, k);
    OffsetIsProduct(k, chunkSize);
  }

  /** `k * c` as `k` repeated additions, which keeps the slicing argument
      linear. */
  function Offset(k: nat, c: int): (r: int)
    ensures c >= 0 ==> r >= 0
  {
    if k == 0 then 0 else Offset(k - 1, c) + c
  }

  lemma {:induction false} OffsetIsProduct(k: nat, c: int)
    ensures Offset(k, c) == k * c
  {
    if k > 0 {
      OffsetIsProduct(k - 1, c);
      MulSucc(k, c);
    }
  }

  lemma MulSucc(k: int, c: int)
    ensures k * c == (k - 1) * c + c
  {
  }

  /** A payload longer than one chunk splits into its first chunk and the
      split of the rest; otherwise into at most one chunk. */
  lemma SplitShape(data: seq<byte>, chunkSize: int)
    requires chunkSize > 0
    ensures |data| <= chunkSize ==> |Split(data, chunkSize)| <= 1
    ensures |data| > chunkSize ==>
              Split(data, chunkSize) == [data[..chunkSize]] + Split(data[chunkSize..], chunkSize)
  {
  }

  lemma {:induction false} SplitSliceAt(data: seq<byte>, chunkSize: int, k: nat)
    requires chunkSize > 0
    requires k < |Split(data, chunkSize)|
    ensures Offset(k, chunkSize) < |data|
    ensures Split(data, chunkSize)[k] ==
            data[Offset(k, chunkSize) .. Min2(Offset(k, chunkSize) + chunkSize, |data|)]
    decreases |data|
  {
    if k > 0 {
      SplitShape(data, chunkSize);
      var rest := data[chunkSize..];
      assert Split(data, chunkSize)[k] == Split(rest, chunkSize)[k - 1];
      SplitSliceAt(rest, chunkSize, k - 1);
      var j := Offset(k - 1, chunkSize);
      var hi := Min2(j + chunkSize, |rest|);
      SliceOfDrop(data, chunkSize, j, hi);
      assert Offset(k, chunkSize) == j + chunkSize;
      assert Min2(j + chunkSize + chunkSize, |data|) == hi + chunkSize;
    }
  }

  lemma SliceOfDrop(data: seq<byte>, c: int, lo: int, hi: int)
    requires 0 <= c <= |data| && 0 <= lo <= hi <= |data| - c
    ensures data[c..][lo .. hi] == data[lo + c .. hi + c]
  {
  }

  /** Concatenation of chunks in list order. */
  function Concat(parts: seq<seq<byte>>): seq<byte>
  {
    if parts == [] then [] else parts[0] + Concat(parts[1..])
  }

  lemma {:induction false} ConcatSnoc(parts: seq<seq<byte>>, p: seq<byte>)
    ensures Concat(parts + [p]) == Concat(parts) + p
  {
    if parts != [] {
      assert (parts + [p])[1..] == parts[1..] + [p];
      ConcatSnoc(parts[1..], p);
    } else {
      assert parts + [p] == [p];
    }
  }

  /** Round trip: concatenating the chunks of `data` gives back `data`. */
  lemma {:induction false} SplitConcat(data: seq<byte>, chunkSize: int)
    requires chunkSize > 0
    ensures Concat(Split(data, chunkSize)) == data
    decreases |data|
  {
    if |data| == 0 {
    } else if |data| <= chunkSize {
      assert Concat([data]) == data + Concat([]);
    } else {
      var parts := Split(data, chunkSize);
      SplitConcat(data[chunkSize..], chunkSize);
      assert parts[1..] == Split(data[chunkSize..], chunkSize);
      assert data == data[..chunkSize] + data[chunkSize..];
    }
  }

  /** The chunks `0 .. n-1` of a stored chunk map, appended in index order:
      what reassembly writes to the output file. */
  function Assemble(stored: map<int, seq<byte>>, n: int): (r: seq<byte>)
    requires forall i :: 0 <= i < n ==> i in stored
    ensures n <= 0 ==> r == []
    ensures n > 0 ==> r == Concat(InOrder(stored, n))
    decreases n
  {
    if n <= 0 then []
    else
      InOrderSnoc(stored, n);
      ConcatSnoc(InOrder(stored, n - 1), stored[n - 1]);
      Assemble(stored, n - 1) + stored[n - 1]
  }

  /** One more index appends that chunk (the step of the reassembly loop). */
  lemma AssembleNext(stored: map<int, seq<byte>>, i: nat)
    requires forall k :: 0 <= k <= i ==> k in stored
    ensures Assemble(stored, i + 1) == Assemble(stored, i) + stored[i]
  {
  }

  /** The list of chunks `0 .. n-1` of a chunk map. */
  function InOrder(stored: map<int, seq<byte>>, n: nat): (parts: seq<seq<byte>>)
    requires forall i :: 0 <= i < n ==> i in stored
    ensures |parts| == n && forall k :: 0 <= k < n ==> parts[k] == stored[k]
  {
    seq(n, i requires 0 <= i < n => stored[i])
  }

  lemma InOrderSnoc(stored: map<int, seq<byte>>, n: nat)
    requires n > 0 && forall i :: 0 <= i < n ==> i in stored
    ensures InOrder(stored, n) == InOrder(stored, n - 1) + [stored[n - 1]]
  {
    var l := InOrder(stored, n);
    var r := InOrder(stored, n - 1) + [stored[n - 1]];
    assert |l| == |r|;
    forall k | 0 <= k < n ensures l[k] == r[k] {
      if k < n - 1 {
        assert r[k] == InOrder(stored, n - 1)[k];
      }
    }
  }

  /** The chunk map holding chunk `k` of `parts` under index `k`. */
  function Indexed(parts: seq<seq<byte>>): (m: map<int, seq<byte>>)
    ensures m.Keys == Range(|parts|)
    ensures forall k :: 0 <= k < |parts| ==> m[k] == parts[k]
  {
    map k | 0 <= k < |parts| :: parts[k]
  }

  /** Storing one more chunk extends the chunk map of a prefix. */
  lemma IndexedSnoc(parts: seq<seq<byte>>, i: nat)
    requires i < |parts|
    ensures Indexed(parts[..i + 1]) == Indexed(parts[..i])[i := parts[i]]
  {
    var l := Indexed(parts[..i + 1]);
    var r := Indexed(parts[..i])[i := parts[i]];
    assert l.Keys == r.Keys;
    forall k | k in l.Keys ensures l[k] == r[k] {
      if k < i {
        assert parts[..i + 1][k] == parts[..i][k];
      }
    }
  }

  /** Appending stored chunks in index order is concatenating the list of
      those chunks. */
  lemma {:induction false} AssemblePrefix(stored: map<int, seq<byte>>, parts: seq<seq<byte>>, n: nat)
    requires n <= |parts|
    requires forall k :: 0 <= k < |parts| ==> k in stored && stored[k] == parts[k]
    ensures Assemble(stored, n) == Concat(parts[..n])
  {
    if n == 0 {
      assert parts[..0] == [];
    } else {
      AssemblePrefix(stored, parts, n - 1);
      assert parts[..n] == parts[..n - 1] + [parts[n - 1]];
      ConcatSnoc(parts[..n - 1], parts[n - 1]);
    }
  }

  /** Round trip through the store: storing chunk `k` of `Split(data, cs)`
      under key `k` and reassembling `ceil(|data| / cs)` chunks reproduces
      `data` exactly, so the size check also passes. */
  lemma ReassembleSplit(data: seq<byte>, chunkSize: int)
    requires chunkSize > 0
    ensures Indexed(Split(data, chunkSize)).Keys == Range(CeilDiv(|data|, chunkSize))
    ensures Assemble(Indexed(Split(data, chunkSize)), CeilDiv(|data|, chunkSize)) == data
  {
    var parts := Split(data, chunkSize);
    SplitCount(data, chunkSize);
    AssemblePrefix(Indexed(parts), parts, |parts|);
    assert parts[..|parts|] == parts;
    SplitConcat(data, chunkSize);
  }
}
