/** Go slices as views into a shared backing array. A slice value is the
    header (array, offset, length, capacity); copying it copies the header
    only, so every slice cut from the same array sees writes made through
    any of them. Run-time panics are modelled as error results. */
module Slices {

  datatype Option<T> = None | Some(value: T)

  /** The run-time panics of the operations below. */
  datatype Panic = SliceBoundsOutOfRange | IndexOutOfRange | LenOutOfRange | CapOutOfRange

  datatype Result<T> = Ok(value: T) | Err(panic: Panic)

  /** A slice header: elements `arr[off .. off + len]` are visible, and the
      slice may be re-extended up to `arr[off + cap - 1]`. */
  datatype Slice<T> = Slice(arr: array<T>, off: nat, len: nat, cap: nat) {

    predicate Valid()
    {
      len <= cap && off + cap <= arr.Length
    }

    /** The elements the slice shows: `len(s)` of them. */
    function Contents(): (c: seq<T>)
      reads arr
      requires Valid()
      ensures |c| == len
    {
      View(arr[..], this)
    }
  }

  /** What slice `s` shows when its backing array holds `b`. */
  function View<T>(b: seq<T>, s: Slice<T>): (v: seq<T>)
    requires s.off + s.len <= |b|
  {
    b[s.off..s.off + s.len]
  }

  /** `a[:]` for an array `a`: the whole array, capacity included. */
  function OfArray<T>(a: array<T>): (s: Slice<T>)
    reads a
    ensures s.Valid() && s.arr == a && s.off == 0 && s.cap == a.Length
    ensures s.Contents() == a[..]
  {
    Slice(a, 0, a.Length, a.Length)
  }

  /** The slice expression `s[lo:hi]`. An omitted low bound is 0 and an
      omitted high bound is `len(s)`. The bounds are checked against the
      capacity, not the length, so a slice can be re-extended; a negative
      bound panics too. The result keeps the backing array and its capacity
      runs to the end of `s`'s. */
  function Reslice<T>(s: Slice<T>, lo: Option<int>, hi: Option<int>): (r: Result<Slice<T>>)
    requires s.Valid()
    ensures lo == None && hi == None ==> r == Ok(s)
    ensures var l, h := (if lo.Some? then lo.value else 0), (if hi.Some? then hi.value else s.len);
      && (r.Ok? <==> 0 <= l <= h <= s.cap)
      && (r.Err? ==> r.panic == SliceBoundsOutOfRange)
      && (r.Ok? ==> r.value.Valid() && r.value.arr == s.arr && r.value.off == s.off + l
                    && r.value.len == h - l && r.value.cap == s.cap - l)
  {
    var l := if lo.Some? then lo.value else 0;
    var h := if hi.Some? then hi.value else s.len;
    if 0 <= l <= h <= s.cap then Ok(Slice(s.arr, s.off + l, h - l, s.cap - l))
    else Err(SliceBoundsOutOfRange)
  }

  /** Within the length, a re-slice shows a sub-range of what `s` shows. */
  lemma ResliceWithinLen<T>(b: seq<T>, s: Slice<T>, l: nat, h: nat)
    requires s.Valid() && s.off + s.cap <= |b|
    requires l <= h <= s.len
    ensures Reslice(s, Some(l), Some(h)).Ok?
    ensures View(b, Reslice(s, Some(l), Some(h)).value) == View(b, s)[l..h]
  {
    var r := Reslice(s, Some(l), Some(h)).value;
    assert r.off == s.off + l && r.len == h - l;
    var v := View(b, s);
    assert |v| == s.len;
    assert forall j :: 0 <= j < h - l ==> v[l..h][j] == v[l + j] == b[s.off + l + j];
    assert View(b, r) == b[s.off + l..s.off + h] == v[l..h];
  }

  /** Re-slicing a re-slice is one re-slice with the offsets added, and it
      is legal exactly when that one is. (The inner bounds `c`, `d` are
      taken non-negative: a negative one panics on the re-slice even where
      the added offset would be in range.) */
  lemma ResliceCompose<T>(s: Slice<T>, a: nat, b: nat, c: nat, d: nat)
    requires s.Valid() && Reslice(s, Some(a), Some(b)).Ok?
    ensures Reslice(Reslice(s, Some(a), Some(b)).value, Some(c), Some(d)) == Reslice(s, Some(a + c), Some(a + d))
  {
  }

  /** `s[i]`: panics unless `0 <= i < len(s)`. */
  function Get<T>(s: Slice<T>, i: int): (r: Result<T>)
    reads s.arr
    requires s.Valid()
    ensures r.Ok? <==> 0 <= i < s.len
    ensures r.Ok? ==> r.value == s.Contents()[i]
    ensures r.Err? ==> r.panic == IndexOutOfRange
  {
    if 0 <= i < s.len then Ok(s.arr[s.off + i]) else Err(IndexOutOfRange)
  }

  /** `s[i] = v`: writes into the backing array, so every slice over that
      array sees it. `ok` is false when the write panics (index out of
      range); nothing is written then. */
  method Set<T>(s: Slice<T>, i: int, v: T) returns (ok: bool)
    requires s.Valid()
    modifies s.arr
    ensures ok <==> 0 <= i < s.len
    ensures s.arr[..] == if ok then old(s.arr[..])[s.off + i := v] else old(s.arr[..])
    ensures ok ==> s.Contents() == old(s.Contents())[i := v]
  {
    ok := 0 <= i < s.len;
    if ok {
      s.arr[s.off + i] := v;
    }
  }

  /** Aliasing: after a write through `s`, any slice `t` over the same
      backing array shows the new value at the corresponding index if it
      covers the written element, and is unchanged otherwise. */
  lemma AliasedWrite<T>(b: seq<T>, s: Slice<T>, t: Slice<T>, i: nat, v: T)
    requires s.Valid() && t.Valid() && s.off + s.cap <= |b| && t.off + t.cap <= |b|
    requires i < s.len
    ensures var p := s.off + i;
      View(b[p := v], t) == if t.off <= p < t.off + t.len then View(b, t)[p - t.off := v] else View(b, t)
  {
  }

  /** A slice literal `[]T{x0, x1, ...}`: a fresh backing array holding the
      elements, viewed whole. */
  method Literal<T>(xs: seq<T>) returns (s: Slice<T>)
    ensures fresh(s.arr) && s.Valid()
    ensures s.off == 0 && s.len == s.cap == |xs| && s.Contents() == xs
  {
    var a := new T[|xs|](k requires 0 <= k < |xs| => xs[k]);
    s := OfArray(a);
  }

  /** `make([]T, len, cap)`, the capacity defaulting to `len`: a fresh
      backing array of `cap` zero values. Panics with "len out of range"
      when `len < 0`, and with "cap out of range" when `cap < len`. */
  method Make<T>(zero: T, len: int, capArg: Option<int>) returns (r: Result<Slice<T>>)
    ensures var cap := if capArg.Some? then capArg.value else len;
      && (r.Ok? <==> 0 <= len <= cap)
      && (r.Err? ==> r.panic == if len < 0 then LenOutOfRange else CapOutOfRange)
      && (r.Ok? ==> fresh(r.value.arr) && r.value.Valid() && r.value.off == 0
                    && r.value.len == len && r.value.cap == cap
                    && r.value.arr[..] == seq(cap, _ => zero))
  {
    var cap := if capArg.Some? then capArg.value else len;
    if len < 0 {
      r := Err(LenOutOfRange);
    } else if cap < len {
      r := Err(CapOutOfRange);
    } else {
      var a := new T[cap](_ => zero);
      r := Ok(Slice(a, 0, len, cap));
    }
  }

  /** Writes `xs` into `a` from index `p` on, as `append` does when the
      elements fit in the capacity. */
  method WriteRun<T>(a: array<T>, p: nat, xs: seq<T>)
    requires p + |xs| <= a.Length
    modifies a
    ensures forall j :: 0 <= j < a.Length ==>
      a[j] == if p <= j < p + |xs| then xs[j - p] else old(a[j])
  {
    for k := 0 to |xs|
      invariant forall j :: 0 <= j < a.Length ==>
        a[j] == if p <= j < p + k then xs[j - p] else old(a[j])
    {
      a[p + k] := xs[k];
    }
  }

  /** The fresh backing array `append` allocates when it grows a slice:
      capacity `c`, holding the old elements, then `xs`, then zero values. */
  method Regrow<T>(s: Slice<T>, xs: seq<T>, zero: T, c: nat) returns (a: array<T>)
    requires s.Valid() && s.len + |xs| <= c
    ensures fresh(a) && a.Length == c
    ensures forall j :: 0 <= j < c ==>
      a[j] == if j < s.len then s.arr[s.off + j] else if j < s.len + |xs| then xs[j - s.len] else zero
  {
    a := new T[c](_ => zero);
    for k := 0 to s.len
      invariant forall j :: 0 <= j < c ==> a[j] == if j < k then s.arr[s.off + j] else zero
    {
      a[k] := s.arr[s.off + k];
    }
    for k := 0 to |xs|
      invariant forall j :: 0 <= j < c ==>
        a[j] == if j < s.len then s.arr[s.off + j] else if j < s.len + k then xs[j - s.len] else zero
    {
      a[s.len + k] := xs[k];
    }
  }

  /** `append(s, xs...)`. When the elements fit in the capacity they are
      written into the backing array after `len(s)`, visible to every
      slice over it. Otherwise a fresh array of capacity `grown` (the
      run-time's choice, raised to the length needed) receives a copy, the
      old array is left untouched, and the result no longer aliases `s`. */
  method Append<T>(s: Slice<T>, xs: seq<T>, zero: T, grown: nat) returns (r: Slice<T>)
    requires s.Valid()
    modifies s.arr
    ensures r.Valid() && r.len == s.len + |xs|
    ensures r.Contents() == old(s.Contents()) + xs
    ensures s.len + |xs| <= s.cap ==>
      && r == Slice(s.arr, s.off, s.len + |xs|, s.cap)
      && forall j :: 0 <= j < s.arr.Length && !(s.off + s.len <= j < s.off + r.len) ==> s.arr[j] == old(s.arr[j])
    ensures s.len + |xs| > s.cap ==>
      && fresh(r.arr) && unchanged(s.arr)
      && r.off == 0 && r.cap == (if grown < r.len then r.len else grown)
      && forall j :: r.len <= j < r.cap ==> r.arr[j] == zero
  {
    var need := s.len + |xs|;
    if need <= s.cap {
      WriteRun(s.arr, s.off + s.len, xs);
      r := Slice(s.arr, s.off, need, s.cap);
    } else {
      var a := Regrow(s, xs, zero, if grown < need then need else grown);
      r := Slice(a, 0, need, a.Length);
    }
    assert forall j :: 0 <= j < r.len ==> r.Contents()[j] == (old(s.Contents()) + xs)[j];
  }

  /** `slices_demo`: `s = primes[1:4]`, then `a = names[0:2]` and
      `b = names[1:3]` share `names[1]`; writing `b[0] = "XXX"` shows in
      `a[1]` and in `names`, and nothing else changes. */
  method SlicesDemo() returns (s: seq<int>, aBefore: seq<string>, bBefore: seq<string>,
                              a: seq<string>, b: seq<string>, names: seq<string>)
    ensures s == [3, 5, 7]
    ensures aBefore == ["John", "Paul"] && bBefore == ["Paul", "George"]
    ensures a == ["John", "XXX"] && b == ["XXX", "George"]
    ensures names == ["John", "XXX", "George", "Ringo"]
  {
    var primes := new int[][2, 3, 5, 7, 11, 13];
    var sr := Reslice(OfArray(primes), Some(1), Some(4));
    s := sr.value.Contents();

    var namesArr := new string[]["John", "Paul", "George", "Ringo"];
    var ar := Reslice(OfArray(namesArr), Some(0), Some(2));
    var br := Reslice(OfArray(namesArr), Some(1), Some(3));
    aBefore, bBefore := ar.value.Contents(), br.value.Contents();

    var ok := Set(br.value, 0, "XXX");
    a, b, names := ar.value.Contents(), br.value.Contents(), namesArr[..];
  }

  /** `(contents, len, cap)` of a slice, what `printSlice` shows. */
  function Shape<T>(s: Slice<T>): (t: (seq<T>, nat, nat))
    reads s.arr
    requires s.Valid()
  {
    (s.Contents(), s.len, s.cap)
  }

  /** `slice_default_demo`: omitted bounds default to 0 and `len`, and a
      zero-length slice with capacity 5 can be re-extended to length 2 and
      then re-sliced `[2:5]` within that capacity. */
  method SliceDefaultDemo() returns (s1: seq<int>, s2: seq<int>, s3: seq<int>, s4: seq<int>,
                                    a: (seq<int>, nat, nat), b: (seq<int>, nat, nat),
                                    c: (seq<int>, nat, nat), d: (seq<int>, nat, nat))
    ensures s1 == [3, 5, 7] && s2 == [3, 5] && s3 == [5] && s4 == [5]
    ensures a == ([0, 0, 0, 0, 0], 5, 5)
    ensures b == ([], 0, 5)
    ensures c == ([0, 0], 2, 5)
    ensures d == ([0, 0, 0], 3, 3)
  {
    var s := Literal([2, 3, 5, 7, 11, 13]);
    s := Reslice(s, Some(1), Some(4)).value;
    s1 := s.Contents();
    assert s1 == s.arr[1..4];
    s := Reslice(s, None, Some(2)).value;
    s2 := s.Contents();
    s := Reslice(s, Some(1), None).value;
    s3 := s.Contents();
    s := Reslice(s, None, None).value;
    s4 := s.Contents();

    var ma := Make(0, 5, None);
    assert ma.value.arr[..] == [0, 0, 0, 0, 0];
    a := Shape(ma.value);
    var mb := Make(0, 0, Some(5));
    assert mb.value.arr[..] == [0, 0, 0, 0, 0];
    b := Shape(mb.value);
    var sc := Reslice(mb.value, None, Some(2)).value;
    c := Shape(sc);
    var sd := Reslice(sc, Some(2), Some(5)).value;
    d := Shape(sd);
    assert a.0 == [0, 0, 0, 0, 0] && a.1 == 5 && a.2 == 5;
    assert c.0 == [0, 0] && c.1 == 2 && c.2 == 5;
  }

  /** `append_slice`: appending 0, then 1, then 2, 3, 4 to a nil slice.
      The capacities the run-time picks when it grows the slice are
      parameters; lengths and contents do not depend on them. */
  method AppendSliceDemo(grown1: nat, grown2: nat, grown3: nat)
    returns (s1: seq<int>, s2: seq<int>, s3: seq<int>)
    ensures s1 == [0] && s2 == [0, 1] && s3 == [0, 1, 2, 3, 4]
  {
    var s := Literal([]);
    s := Append(s, [0], 0, grown1);
    s1 := s.Contents();
    s := Append(s, [1], 0, grown2);
    s2 := s.Contents();
    s := Append(s, [2, 3, 4], 0, grown3);
    s3 := s.Contents();
  }
}
