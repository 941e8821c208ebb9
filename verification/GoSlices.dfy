/** Go slice headers over a shared backing array. `append` writes into the spare
    capacity of the backing array and reallocates only when it does not suffice. */
module GoSlices {
  import opened Sequences

  datatype Slice<T> = Slice(arr: array<T>, off: nat, len: nat, cap: nat) {
    ghost predicate Ok() {
      len <= cap && off + cap <= arr.Length
    }

    function View(): (s: seq<T>)
      requires Ok()
      reads arr
      ensures |s| == len
    {
      arr[off..off + len]
    }

    /** `s[:hi]`: the bound is the capacity, so a slice can be extended again. */
    function Upto(hi: nat): (r: Slice<T>)
      requires Ok() && hi <= cap
      ensures r.Ok() && r.arr == arr && r.len == hi
    {
      Slice(arr, off, hi, cap)
    }

    /** `s[lo:]` */
    function From(lo: nat): (r: Slice<T>)
      requires Ok() && lo <= len
      ensures r.Ok() && r.arr == arr && r.len == len - lo
    {
      Slice(arr, off + lo, len - lo, cap - lo)
    }
  }

  /** `append(s, xs...)`. The values `xs` are read before anything is written, as the
      overlapping copy of the runtime does. `spare` is the extra capacity the runtime
      chooses when it reallocates. */
  method Append<T(0)>(s: Slice<T>, xs: seq<T>, spare: nat) returns (r: Slice<T>)
    requires s.Ok()
    modifies s.arr
    ensures r.Ok() && r.View() == old(s.View()) + xs
    ensures s.len + |xs| <= s.cap ==> r == Slice(s.arr, s.off, s.len + |xs|, s.cap)
    ensures s.len + |xs| > s.cap ==> fresh(r.arr) && s.arr[..] == old(s.arr[..])
    ensures forall k :: 0 <= k < s.arr.Length && !(s.off + s.len <= k < s.off + s.len + |xs|) ==>
      s.arr[k] == old(s.arr[k])
  {
    var n := s.len + |xs|;
    if n <= s.cap {
      forall k | 0 <= k < |xs| {
        s.arr[s.off + s.len + k] := xs[k];
      }
      r := Slice(s.arr, s.off, n, s.cap);
    } else {
      var whole := s.View() + xs;
      var grown := new T[n + spare];
      forall k | 0 <= k < n {
        grown[k] := whole[k];
      }
      r := Slice(grown, 0, n, n + spare);
    }
  }

  lemma {:induction false} AllLikeFirst<T>(s: seq<T>, i: nat, n: nat)
    requires i < n <= |s| && forall k :: i <= k < |s| - 1 ==> s[k] == s[k + 1]
    ensures forall k :: i <= k < n ==> s[k] == s[i]
  {
    if n > i + 1 {
      AllLikeFirst(s, i, n - 1);
      assert s[n - 2] == s[n - 1];
    }
  }

  /** What a header of the old length sees after the removal of element `i`: the old list exactly when
      nothing distinguishes the elements from there on. */
  lemma OldHeaderSameIff<T>(s: seq<T>, i: nat)
    requires i < |s|
    ensures RemoveAt(s, i) + [s[|s| - 1]] == s <==> forall k :: i <= k < |s| ==> s[k] == s[i]
  {
    var shifted := RemoveAt(s, i) + [s[|s| - 1]];
    assert forall k :: i <= k < |s| - 1 ==> shifted[k] == s[k + 1];
    if shifted == s {
      AllLikeFirst(s, i, |s|);
    }
  }

  /** `append(s[:i], s[i+1:]...)`: the later elements move left within the backing array, which
      is never reallocated. A header of the old length sees the last element twice. */
  method CutOut<T(0)>(s: Slice<T>, i: nat, spare: nat) returns (r: Slice<T>)
    requires s.Ok() && i < s.len
    modifies s.arr
    ensures r == Slice(s.arr, s.off, s.len - 1, s.cap)
    ensures r.View() == RemoveAt(old(s.View()), i)
    ensures s.View() == RemoveAt(old(s.View()), i) + [old(s.View())[s.len - 1]]
  {
    r := Append(s.Upto(i), s.From(i + 1).View(), spare);
  }
}
