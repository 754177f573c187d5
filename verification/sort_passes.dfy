/** The three passes of `sortLines` (sst-doc.js:390-439), each proved once for
    any way of reading a row: the passes take the row's classification, its
    number and its letter key as function parameters, and the SortLines module
    supplies the source's readings (`parseInt` and the label pattern).

    The source sorts one array in place. Each pass here starts from the rows
    it is given, performs the same swaps on a local sequence, and returns the
    result, so that every contract speaks of values. */
module SortPasses {
  import opened Wrappers
  import opened LabelKey

  /** The rows of `s` that the first pass moves to the front, in their order in `s`. */
  function FrontRows<E>(s: seq<E>, numeric: E -> bool): seq<E>
    decreases |s|
  {
    if |s| == 0 then []
    else
      var last := s[|s| - 1];
      FrontRows(s[..|s| - 1], numeric) + (if numeric(last) then [] else [last])
  }

  /** No numeric row precedes a non-numeric one. */
  predicate NumericLast<E>(s: seq<E>, numeric: E -> bool) {
    forall i, j :: 0 <= i < j < |s| && numeric(s[i]) ==> numeric(s[j])
  }

  /** The non-numeric block is `s[..num]`, the numeric block `s[num..]`. */
  predicate SplitAt<E>(s: seq<E>, num: nat, numeric: E -> bool) {
    && num <= |s|
    && (forall i :: 0 <= i < num ==> !numeric(s[i]))
    && (forall i :: num <= i < |s| ==> numeric(s[i]))
  }

  /** `s[num..]` is nondecreasing by `number`. */
  predicate SortedFrom<E>(s: seq<E>, num: nat, number: E -> int) {
    forall i, j :: num <= i < j < |s| ==> number(s[i]) <= number(s[j])
  }

  /** The bubble pass swaps `a` ahead of its right neighbour `b` exactly when this holds. */
  predicate OutOfOrder<E>(a: E, b: E, key: E -> Option<LetterKey>) {
    key(a).Some? && key(b).Some? && Greater(key(a).value, key(b).value)
  }

  /** Rows the letter comparison cannot tell apart. */
  predicate SameKey<E>(a: E, b: E, key: E -> Option<LetterKey>) {
    key(a).Some? && key(a) == key(b)
  }

  /** `s[..num]` is nondecreasing by key; with two rows or more every row must
      have a key, since each one then takes part in a comparison. */
  predicate KeySortedUpTo<E>(s: seq<E>, num: nat, key: E -> Option<LetterKey>)
    requires num <= |s|
  {
    || num < 2
    || (&& (forall i :: 0 <= i < num ==> key(s[i]).Some?)
        && (forall i, j :: 0 <= i < j < num ==> !OutOfOrder(s[i], s[j], key)))
  }

  predicate IsPermutation(perm: seq<int>, n: nat) {
    && |perm| == n
    && (forall i :: 0 <= i < n ==> 0 <= perm[i] < n)
    && (forall i, j :: 0 <= i < j < n ==> perm[i] != perm[j])
  }

  /** First pass (sst-doc.js:392-405): every non-numeric row is swapped down
      to position `num`, which then advances. The moved rows keep their
      relative order. */
  method MoveLettersToFront<E>(input: seq<E>, numeric: E -> bool) returns (out: seq<E>, num: nat)
    ensures |out| == |input| && multiset(out) == multiset(input)
    ensures num <= |out| && out[..num] == FrontRows(input, numeric)
    ensures SplitAt(out, num, numeric)
    ensures NumericLast(input, numeric) ==> out == input
  {
    var arr := input;
    num := 0;
    var x := 0;
    while x < |arr|
      invariant Partitioning(input, arr, num, x, numeric)
      decreases |arr| - x
    {
      if !numeric(arr[x]) {
        MoveToFront(input, arr, num, x, numeric);
        arr := arr[x := arr[num]][num := arr[x]];
        num := num + 1;
      } else {
        KeepInPlace(input, arr, num, x, numeric);
      }
      x := x + 1;
    }
    assert input[..x] == input;
    out := arr;
  }

  /** What the first pass has established after scanning `input[..x]`: the
      non-numeric rows seen so far sit in order at `arr[..num]`, the numeric
      ones at `arr[num..x]`, and the unscanned rows are untouched. */
  ghost predicate Partitioning<E>(input: seq<E>, arr: seq<E>, num: nat, x: nat, numeric: E -> bool) {
    && |arr| == |input|
    && num <= x <= |arr|
    && arr[..num] == FrontRows(input[..x], numeric)
    && (forall i :: 0 <= i < num ==> !numeric(arr[i]))
    && (forall i :: num <= i < x ==> numeric(arr[i]))
    && arr[x..] == input[x..]
    && multiset(arr) == multiset(input)
    && (NumericLast(input, numeric) ==> arr == input)
  }

  lemma MoveToFront<E>(input: seq<E>, arr: seq<E>, num: nat, x: nat, numeric: E -> bool)
    requires Partitioning(input, arr, num, x, numeric)
    requires x < |arr| && !numeric(arr[x])
    ensures Partitioning(input, arr[x := arr[num]][num := arr[x]], num + 1, x + 1, numeric)
  {
    var next := arr[x := arr[num]][num := arr[x]];
    FrontRowsSnoc(input, x, numeric);
    assert arr[x] == input[x] by { assert arr[x..][0] == input[x..][0]; }
    SwapMultiset(arr, x, num);
    assert next[..num + 1] == arr[..num] + [input[x]];
    assert next[x + 1..] == input[x + 1..] by {
      assert next[x + 1..] == arr[x + 1..];
      assert arr[x + 1..] == arr[x..][1..];
    }
  }

  lemma KeepInPlace<E>(input: seq<E>, arr: seq<E>, num: nat, x: nat, numeric: E -> bool)
    requires Partitioning(input, arr, num, x, numeric)
    requires x < |arr| && numeric(arr[x])
    ensures Partitioning(input, arr, num, x + 1, numeric)
  {
    FrontRowsSnoc(input, x, numeric);
    assert arr[x] == input[x] by { assert arr[x..][0] == input[x..][0]; }
    assert arr[x + 1..] == arr[x..][1..];
  }

  /** Second pass (sst-doc.js:406-428): selection sort of `input[num..]` by
      `number`. Before the loop the source reads `arr[num][0]` inside a `try`;
      when the block is empty that read throws, the `catch` ignores it, and the
      loop does not run. Otherwise the read is the first pass's starting
      minimum, which IndexOfMin starts from on every pass. */
  method SortNumberBlock<E>(input: seq<E>, num: nat, number: E -> int) returns (out: seq<E>)
    requires num <= |input|
    ensures |out| == |input| && out[..num] == input[..num]
    ensures multiset(out[num..]) == multiset(input[num..])
    ensures SortedFrom(out, num, number)
    ensures SortedFrom(input, num, number) ==> out == input
  {
    var arr := input;
    var x := num;
    while x < |arr|
      invariant |arr| == |input|
      invariant num <= x <= |arr|
      invariant arr[..num] == input[..num]
      invariant multiset(arr) == multiset(input)
      invariant forall i, j :: num <= i < j < |arr| && i < x ==> number(arr[i]) <= number(arr[j])
      invariant SortedFrom(input, num, number) ==> arr == input
    {
      var minIndex := IndexOfMin(arr, x, number);
      SwapMultiset(arr, minIndex, x);
      arr := arr[minIndex := arr[x]][x := arr[minIndex]];
      x := x + 1;
    }
    out := arr;
    SplitMultiset(out, input, num);
  }

  /** The inner loop of the selection pass (sst-doc.js:415-424): the first
      position of `s[x..]` holding its smallest number, found with a strict `<`. */
  method IndexOfMin<E>(s: seq<E>, x: nat, number: E -> int) returns (minIndex: nat)
    requires x < |s|
    ensures x <= minIndex < |s|
    ensures forall k :: x <= k < |s| ==> number(s[minIndex]) <= number(s[k])
    ensures forall k :: x <= k < minIndex ==> number(s[minIndex]) < number(s[k])
  {
    var min := number(s[x]);
    minIndex := x;
    var y := x;
    while y < |s|
      invariant x <= y <= |s|
      invariant x <= minIndex < |s| && minIndex <= y
      invariant min == number(s[minIndex])
      invariant forall k :: x <= k < y ==> min <= number(s[k])
      invariant forall k :: x <= k < minIndex ==> min < number(s[k])
    {
      if number(s[y]) < min {
        min := number(s[y]);
        minIndex := y;
      }
      y := y + 1;
    }
  }

  /** Third pass (sst-doc.js:430-438): bubble sort of `input[..num]` by key.
      `ok` is false when a compared row has no key: the source then indexes
      `null` and throws, leaving the rows as they are at that moment. `perm`
      records where each row of the block came from. */
  method SortLetterBlock<E>(input: seq<E>, num: nat, key: E -> Option<LetterKey>)
    returns (out: seq<E>, ok: bool, ghost perm: seq<int>)
    requires num <= |input|
    ensures |out| == |input| && out[num..] == input[num..]
    ensures multiset(out[..num]) == multiset(input[..num])
    ensures IsPermutation(perm, num)
    ensures forall i {:trigger perm[i]} :: 0 <= i < num ==> out[i] == input[perm[i]]
    ensures forall i, j {:trigger perm[i], perm[j]} :: 0 <= i < j < num && SameKey(out[i], out[j], key) ==> perm[i] < perm[j]
    ensures ok <==> (num < 2 || forall i :: 0 <= i < num ==> key(input[i]).Some?)
    ensures ok ==> KeySortedUpTo(out, num, key)
    ensures KeySortedUpTo(input, num, key) ==> ok && out == input
  {
    var arr := input;
    perm := seq(num, i => i);
    LetterSortingInit(input, perm, num, key);
    var x := 0;
    while x < num
      invariant LetterSorting(input, arr, perm, x, num, key)
      decreases num - x
    {
      var next, passOk, perm' := LetterRound(input, arr, perm, x, num, key);
      if !passOk {
        out, ok, perm := next, false, perm';
        return;
      }
      arr, perm := next, perm';
      x := x + 1;
    }
    LetterSortDone(input, arr, perm, num, key);
    out, ok := arr, true;
  }

  /** Pass `x + 1` of the bubble sort (sst-doc.js:430-437) over `arr[..num - x]`:
      either one more row is in its final place, or the pass met a row without
      a key and the sort ends there. */
  method LetterRound<E>(input: seq<E>, arr: seq<E>, ghost perm: seq<int>, x: nat, num: nat,
                        key: E -> Option<LetterKey>)
    returns (next: seq<E>, ok: bool, ghost perm': seq<int>)
    requires LetterSorting(input, arr, perm, x, num, key) && x < num
    ensures |next| == |arr| && next[num - x..] == arr[num - x..]
    ensures multiset(next[..num - x]) == multiset(arr[..num - x])
    ensures ok <==> (num - x < 2 || forall i :: 0 <= i < num - x ==> key(arr[i]).Some?)
    ensures ok ==> LetterSorting(input, next, perm', x + 1, num, key)
    ensures !ok ==> LetterSortPost(input, next, false, perm', num, key)
  {
    ghost var p;
    next, ok, p := BubblePass(arr, num - x, key);
    if ok {
      LetterPassStep(input, arr, perm, next, p, x, num, key);
      perm' := Compose(perm, p, num - x, num);
    } else {
      perm' := LetterPassFails(input, arr, perm, next, p, x, num, key);
    }
  }

  /** What the letter pass has established after `x` bubble passes: the rows
      of the block are a stable rearrangement of the input's, the last `x`
      of them are in place, and an already sorted block has not moved. */
  ghost predicate LetterSorting<E>(input: seq<E>, arr: seq<E>, perm: seq<int>, x: nat, num: nat,
                                   key: E -> Option<LetterKey>) {
    && x <= num
    && Rearranged(input, arr, perm, num, key)
    && (x > 0 && num >= 2 ==> forall k :: 0 <= k < num ==> key(arr[k]).Some?)
    && (forall i, j :: 0 <= i < j < num && num - x <= j ==> !OutOfOrder(arr[i], arr[j], key))
    && (KeySortedUpTo(input, num, key) ==> arr == input)
  }

  /** Before any pass every row is where it started. */
  lemma LetterSortingInit<E>(input: seq<E>, perm: seq<int>, num: nat, key: E -> Option<LetterKey>)
    requires num <= |input| && perm == seq(num, i => i)
    ensures LetterSorting(input, input, perm, 0, num, key)
  {
  }

  /** The origin of each row after one more pass over `arr[..hi]`. */
  ghost function Compose(perm: seq<int>, p: seq<int>, hi: nat, num: nat): (r: seq<int>)
    requires hi <= num == |perm| && IsPermutation(p, hi)
    ensures |r| == num
  {
    seq(num, i requires 0 <= i < num => if i < hi then perm[p[i]] else perm[i])
  }

  /** `out[..num]` is a rearrangement of `input[..num]` through `perm`, rows
      with the same key keep their relative order, and `out[num..]` is untouched. */
  ghost predicate Rearranged<E>(input: seq<E>, out: seq<E>, perm: seq<int>, num: nat,
                                key: E -> Option<LetterKey>) {
    && num <= |out| == |input|
    && out[num..] == input[num..]
    && multiset(out[..num]) == multiset(input[..num])
    && IsPermutation(perm, num)
    && (forall i {:trigger perm[i]} :: 0 <= i < num ==> out[i] == input[perm[i]])
    && (forall i, j {:trigger perm[i], perm[j]} :: 0 <= i < j < num && SameKey(out[i], out[j], key) ==> perm[i] < perm[j])
  }

  /** A pass over `arr[..hi]` extends the rearrangement already made of the block. */
  lemma PassRearranges<E>(input: seq<E>, arr: seq<E>, perm: seq<int>, next: seq<E>, p: seq<int>,
                          hi: nat, num: nat, key: E -> Option<LetterKey>)
    requires Rearranged(input, arr, perm, num, key) && hi <= num
    requires Rearranged(arr, next, p, hi, key)
    ensures Rearranged(input, next, Compose(perm, p, hi, num), num, key)
  {
    ComposePass(input, arr, perm, next, p, num, hi, key);
    MultisetOfLongerPrefix(next, arr, hi, num);
    assert next[num..] == input[num..] by {
      assert next[num..] == next[hi..][num - hi..];
      assert arr[num..] == arr[hi..][num - hi..];
    }
  }

  lemma LetterPassStep<E>(input: seq<E>, arr: seq<E>, perm: seq<int>, next: seq<E>, p: seq<int>,
                          x: nat, num: nat, key: E -> Option<LetterKey>)
    requires LetterSorting(input, arr, perm, x, num, key) && x < num
    requires Rearranged(arr, next, p, num - x, key)
    requires num - x < 2 || forall i :: 0 <= i < num - x ==> key(arr[i]).Some?
    requires num - x >= 2 ==> forall k :: 0 <= k < num - x ==> key(next[k]).Some?
    requires forall k :: 0 <= k < num - x - 1 ==> !OutOfOrder(next[k], next[num - x - 1], key)
    requires KeySortedUpTo(arr, num - x, key) ==> next == arr
    ensures LetterSorting(input, next, Compose(perm, p, num - x, num), x + 1, num, key)
  {
    var hi := num - x;
    PassRearranges(input, arr, perm, next, p, hi, num, key);
    StepKeys(arr, next, p, x, num, key);
    StepSorted(arr, next, p, x, num, key);
    if KeySortedUpTo(input, num, key) {
      KeySortedPrefix(arr, num, hi, key);
    }
  }

  /** After the first pass every row of the block has a key, and later passes keep that. */
  lemma StepKeys<E>(arr: seq<E>, next: seq<E>, p: seq<int>, x: nat, num: nat, key: E -> Option<LetterKey>)
    requires x < num <= |arr| == |next|
    requires next[num - x..] == arr[num - x..]
    requires IsPermutation(p, num - x)
    requires forall i {:trigger p[i]} :: 0 <= i < num - x ==> next[i] == arr[p[i]]
    requires x > 0 && num >= 2 ==> forall k :: 0 <= k < num ==> key(arr[k]).Some?
    requires num - x >= 2 ==> forall k :: 0 <= k < num - x ==> key(next[k]).Some?
    requires num - x < 2 || forall i :: 0 <= i < num - x ==> key(arr[i]).Some?
    ensures num >= 2 ==> forall k :: 0 <= k < num ==> key(next[k]).Some?
  {
    var hi := num - x;
    if num >= 2 && x > 0 {
      forall k | 0 <= k < num
        ensures key(next[k]).Some?
      {
        if k >= hi {
          assert next[hi..][k - hi] == arr[hi..][k - hi];
        } else {
          assert next[k] == arr[p[k]];
        }
      }
    }
  }

  /** One more pass puts one more row in its final place. */
  lemma StepSorted<E>(arr: seq<E>, next: seq<E>, p: seq<int>, x: nat, num: nat, key: E -> Option<LetterKey>)
    requires x < num <= |arr| == |next|
    requires next[num - x..] == arr[num - x..]
    requires IsPermutation(p, num - x)
    requires forall i {:trigger p[i]} :: 0 <= i < num - x ==> next[i] == arr[p[i]]
    requires forall i, j :: 0 <= i < j < num && num - x <= j ==> !OutOfOrder(arr[i], arr[j], key)
    requires forall k :: 0 <= k < num - x - 1 ==> !OutOfOrder(next[k], next[num - x - 1], key)
    ensures forall i, j :: 0 <= i < j < num && num - x - 1 <= j ==> !OutOfOrder(next[i], next[j], key)
  {
    var hi := num - x;
    forall i, j | 0 <= i < j < num && hi - 1 <= j
      ensures !OutOfOrder(next[i], next[j], key)
    {
      if j >= hi {
        assert next[j] == arr[j] by { assert next[hi..][j - hi] == arr[hi..][j - hi]; }
        var a := if i < hi then p[i] else i;
        assert next[i] == arr[a] by {
          if i >= hi { assert next[hi..][i - hi] == arr[hi..][i - hi]; }
        }
      }
    }
  }

  /** The contract of SortLetterBlock, for the rows `out`, verdict `ok` and origins `perm`. */
  ghost predicate LetterSortPost<E>(input: seq<E>, out: seq<E>, ok: bool, perm: seq<int>, num: nat,
                                    key: E -> Option<LetterKey>)
    requires num <= |input|
  {
    && Rearranged(input, out, perm, num, key)
    && (ok <==> (num < 2 || forall i :: 0 <= i < num ==> key(input[i]).Some?))
    && (ok ==> KeySortedUpTo(out, num, key))
    && (KeySortedUpTo(input, num, key) ==> ok && out == input)
  }

  /** A pass that meets a row without a key ends the sort with `ok` false. */
  lemma LetterPassFails<E>(input: seq<E>, arr: seq<E>, perm: seq<int>, next: seq<E>, p: seq<int>,
                           x: nat, num: nat, key: E -> Option<LetterKey>)
    returns (perm': seq<int>)
    requires LetterSorting(input, arr, perm, x, num, key) && x < num
    requires Rearranged(arr, next, p, num - x, key)
    requires !(num - x < 2 || forall i :: 0 <= i < num - x ==> key(arr[i]).Some?)
    ensures LetterSortPost(input, next, false, perm', num, key)
  {
    var hi := num - x;
    perm' := Compose(perm, p, hi, num);
    PassRearranges(input, arr, perm, next, p, hi, num, key);
    var i :| 0 <= i < hi && key(arr[i]).None?;
    assert key(input[perm[i]]).None?;
  }

  /** After `num` passes the block is sorted and the sort ends with `ok` true. */
  lemma LetterSortDone<E>(input: seq<E>, arr: seq<E>, perm: seq<int>, num: nat, key: E -> Option<LetterKey>)
    requires LetterSorting(input, arr, perm, num, num, key)
    ensures LetterSortPost(input, arr, true, perm, num, key)
  {
    if num >= 2 {
      forall i | 0 <= i < num
        ensures key(input[i]).Some?
      {
        assert input[..num][i] == input[i];
        assert input[i] in multiset(arr[..num]);
      }
    }
  }

  /** A prefix of a key-sorted prefix is key-sorted. */
  lemma KeySortedPrefix<E>(s: seq<E>, num: nat, hi: nat, key: E -> Option<LetterKey>)
    requires hi <= num <= |s| && KeySortedUpTo(s, num, key)
    ensures KeySortedUpTo(s, hi, key)
  {
  }

  /** One pass of the bubble sort (sst-doc.js:431-437): compares the
      neighbouring pairs of `input[..hi]` left to right and swaps a pair when
      the left row is strictly greater, so the greatest row ends at `hi - 1`.
      `p` records where each row came from. */
  method BubblePass<E>(input: seq<E>, hi: nat, key: E -> Option<LetterKey>)
    returns (out: seq<E>, ok: bool, ghost p: seq<int>)
    requires hi <= |input|
    ensures |out| == |input| && out[hi..] == input[hi..]
    ensures multiset(out[..hi]) == multiset(input[..hi])
    ensures IsPermutation(p, hi)
    ensures forall i {:trigger p[i]} :: 0 <= i < hi ==> out[i] == input[p[i]]
    ensures forall i, j {:trigger p[i], p[j]} :: 0 <= i < j < hi && SameKey(out[i], out[j], key) ==> p[i] < p[j]
    ensures ok <==> (hi < 2 || forall i :: 0 <= i < hi ==> key(input[i]).Some?)
    ensures ok && hi >= 2 ==> forall k :: 0 <= k < hi ==> key(out[k]).Some?
    ensures ok ==> forall k :: 0 <= k < hi - 1 ==> !OutOfOrder(out[k], out[hi - 1], key)
    ensures KeySortedUpTo(input, hi, key) ==> ok && out == input
  {
    var arr := input;
    p := seq(hi, i => i);
    var y := 0;
    while y + 1 < hi
      invariant Bubbling(input, arr, p, y, hi, key)
      decreases hi - y
    {
      var aparts := key(arr[y]);
      var bparts := key(arr[y + 1]);
      if aparts.None? || bparts.None? {
        BubbleStops(input, arr, p, y, hi, key);
        out, ok := arr, false;
        return;
      }
      if Greater(aparts.value, bparts.value) {
        BubbleSwap(input, arr, p, y, hi, key);
        arr := arr[y := arr[y + 1]][y + 1 := arr[y]];
        p := p[y := p[y + 1]][y + 1 := p[y]];
      } else {
        BubbleKeep(input, arr, p, y, hi, key);
      }
      y := y + 1;
    }
    BubbleDone(input, arr, p, y, hi, key);
    out, ok := arr, true;
  }

  /** What a bubble pass has established after comparing the pairs up to
      `(y - 1, y)`: `arr[y]` is the greatest of `arr[..y + 1]` and every row
      compared so far has a key. */
  ghost predicate Bubbling<E>(input: seq<E>, arr: seq<E>, p: seq<int>, y: nat, hi: nat,
                              key: E -> Option<LetterKey>) {
    && hi <= |arr| == |input|
    && (y == 0 || y < hi)
    && arr[hi..] == input[hi..]
    && multiset(arr) == multiset(input)
    && IsPermutation(p, hi)
    && (forall i {:trigger p[i]} :: 0 <= i < hi ==> arr[i] == input[p[i]])
    && (forall i, j {:trigger p[i], p[j]} :: 0 <= i < j < hi && SameKey(arr[i], arr[j], key) ==> p[i] < p[j])
    && (forall k :: 0 <= k < y ==> key(arr[k]).Some?)
    && (0 < y ==> key(arr[y]).Some?)
    && (forall k :: 0 <= k < y ==> !OutOfOrder(arr[k], arr[y], key))
    && (KeySortedUpTo(input, hi, key) ==> arr == input)
  }

  lemma BubbleSwap<E>(input: seq<E>, arr: seq<E>, p: seq<int>, y: nat, hi: nat, key: E -> Option<LetterKey>)
    requires Bubbling(input, arr, p, y, hi, key) && y + 1 < hi
    requires OutOfOrder(arr[y], arr[y + 1], key)
    ensures Bubbling(input, arr[y := arr[y + 1]][y + 1 := arr[y]], p[y := p[y + 1]][y + 1 := p[y]], y + 1, hi, key)
  {
    var a, b := key(arr[y]).value, key(arr[y + 1]).value;
    GreaterAsymmetric(a, b);
    GreaterIrreflexive(a);
    SwapMultiset(arr, y, y + 1);
    var next := arr[y := arr[y + 1]][y + 1 := arr[y]];
    assert next[hi..] == arr[hi..];
    SwapKeepsOrigins(input, arr, p, y, hi, key);
    InversionUnsorted(arr, hi, y, y + 1, key);
  }

  /** Swapping neighbours whose keys differ keeps rows with equal keys in
      their input order. */
  lemma SwapKeepsOrigins<E>(input: seq<E>, arr: seq<E>, p: seq<int>, y: nat, hi: nat, key: E -> Option<LetterKey>)
    requires y + 1 < hi <= |arr| == |input|
    requires IsPermutation(p, hi)
    requires forall i {:trigger p[i]} :: 0 <= i < hi ==> arr[i] == input[p[i]]
    requires forall i, j {:trigger p[i], p[j]} :: 0 <= i < j < hi && SameKey(arr[i], arr[j], key) ==> p[i] < p[j]
    requires !SameKey(arr[y], arr[y + 1], key)
    ensures var next, p' := arr[y := arr[y + 1]][y + 1 := arr[y]], p[y := p[y + 1]][y + 1 := p[y]];
      && IsPermutation(p', hi)
      && (forall i {:trigger p'[i]} :: 0 <= i < hi ==> next[i] == input[p'[i]])
      && (forall i, j {:trigger p'[i], p'[j]} :: 0 <= i < j < hi && SameKey(next[i], next[j], key) ==> p'[i] < p'[j])
  {
    var next, p' := arr[y := arr[y + 1]][y + 1 := arr[y]], p[y := p[y + 1]][y + 1 := p[y]];
    forall i, j | 0 <= i < j < hi
      ensures p'[i] != p'[j]
      ensures SameKey(next[i], next[j], key) ==> p'[i] < p'[j]
    {
      var a := if i == y then y + 1 else if i == y + 1 then y else i;
      var b := if j == y then y + 1 else if j == y + 1 then y else j;
      assert p'[i] == p[a] && p'[j] == p[b] && next[i] == arr[a] && next[j] == arr[b];
    }
  }

  /** A block holding an inversion is not key-sorted. */
  lemma InversionUnsorted<E>(s: seq<E>, hi: nat, i: nat, j: nat, key: E -> Option<LetterKey>)
    requires i < j < hi <= |s| && OutOfOrder(s[i], s[j], key)
    ensures !KeySortedUpTo(s, hi, key)
  {
  }

  lemma BubbleKeep<E>(input: seq<E>, arr: seq<E>, p: seq<int>, y: nat, hi: nat, key: E -> Option<LetterKey>)
    requires Bubbling(input, arr, p, y, hi, key) && y + 1 < hi
    requires key(arr[y]).Some? && key(arr[y + 1]).Some? && !OutOfOrder(arr[y], arr[y + 1], key)
    ensures Bubbling(input, arr, p, y + 1, hi, key)
  {
    forall k | 0 <= k < y
      ensures !OutOfOrder(arr[k], arr[y + 1], key)
    {
      NotGreaterTransitive(key(arr[k]).value, key(arr[y]).value, key(arr[y + 1]).value);
    }
  }

  lemma BubbleStops<E>(input: seq<E>, arr: seq<E>, p: seq<int>, y: nat, hi: nat, key: E -> Option<LetterKey>)
    requires Bubbling(input, arr, p, y, hi, key) && y + 1 < hi
    requires key(arr[y]).None? || key(arr[y + 1]).None?
    ensures multiset(arr[..hi]) == multiset(input[..hi])
    ensures !(hi < 2 || forall i :: 0 <= i < hi ==> key(input[i]).Some?)
    ensures !KeySortedUpTo(input, hi, key)
  {
    assert key(input[p[y]]).None? || key(input[p[y + 1]]).None?;
    SplitMultiset(arr, input, hi);
  }

  lemma BubbleDone<E>(input: seq<E>, arr: seq<E>, p: seq<int>, y: nat, hi: nat, key: E -> Option<LetterKey>)
    requires Bubbling(input, arr, p, y, hi, key) && hi <= y + 1
    ensures multiset(arr[..hi]) == multiset(input[..hi])
    ensures hi >= 2 ==> forall k :: 0 <= k < hi ==> key(arr[k]).Some?
    ensures hi >= 2 ==> forall i :: 0 <= i < hi ==> key(input[i]).Some?
    ensures forall k :: 0 <= k < hi - 1 ==> !OutOfOrder(arr[k], arr[hi - 1], key)
  {
    SplitMultiset(arr, input, hi);
    if hi >= 2 {
      assert y == hi - 1;
      forall i | 0 <= i < hi
        ensures key(input[i]).Some?
      {
        assert input[..hi][i] == input[i];
        assert input[i] in multiset(arr[..hi]);
      }
    }
  }

  /** Following one bubble pass over `arr[..hi]` (recorded by `p`) after the
      passes recorded by `perm` still places every row and keeps rows with
      equal keys in their input order. */
  lemma ComposePass<E>(input: seq<E>, arr: seq<E>, perm: seq<int>, next: seq<E>, p: seq<int>,
                       num: nat, hi: nat, key: E -> Option<LetterKey>)
    requires hi <= num <= |arr| == |next| == |input|
    requires IsPermutation(perm, num)
    requires forall i {:trigger perm[i]} :: 0 <= i < num ==> arr[i] == input[perm[i]]
    requires forall i, j {:trigger perm[i], perm[j]} :: 0 <= i < j < num && SameKey(arr[i], arr[j], key) ==> perm[i] < perm[j]
    requires next[hi..] == arr[hi..]
    requires IsPermutation(p, hi)
    requires forall i {:trigger p[i]} :: 0 <= i < hi ==> next[i] == arr[p[i]]
    requires forall i, j {:trigger p[i], p[j]} :: 0 <= i < j < hi && SameKey(next[i], next[j], key) ==> p[i] < p[j]
    ensures var perm' := Compose(perm, p, hi, num);
      && IsPermutation(perm', num)
      && (forall i {:trigger perm'[i]} :: 0 <= i < num ==> next[i] == input[perm'[i]])
      && (forall i, j {:trigger perm'[i], perm'[j]} :: 0 <= i < j < num && SameKey(next[i], next[j], key) ==> perm'[i] < perm'[j])
  {
    var perm' := Compose(perm, p, hi, num);
    forall i | hi <= i < num
      ensures next[i] == arr[i]
    {
      assert next[hi..][i - hi] == arr[hi..][i - hi];
    }
    forall i, j | 0 <= i < j < num
      ensures perm'[i] != perm'[j]
      ensures SameKey(next[i], next[j], key) ==> perm'[i] < perm'[j]
    {
      var a := if i < hi then p[i] else i;
      var b := if j < hi then p[j] else j;
      assert perm'[i] == perm[a] && perm'[j] == perm[b];
      assert next[i] == arr[a] && next[j] == arr[b];
      assert a != b;
      if SameKey(next[i], next[j], key) {
        assert a < b;
      }
    }
  }

  lemma MultisetOfLongerPrefix<E>(a: seq<E>, b: seq<E>, hi: nat, num: nat)
    requires hi <= num <= |a| == |b|
    requires multiset(a[..hi]) == multiset(b[..hi]) && a[hi..] == b[hi..]
    ensures multiset(a[..num]) == multiset(b[..num])
  {
    assert a[..num] == a[..hi] + a[hi..num];
    assert b[..num] == b[..hi] + b[hi..num];
    assert a[hi..num] == a[hi..][..num - hi];
    assert b[hi..num] == b[hi..][..num - hi];
  }

  // ---------------------------------------------------------------------
  // Helper facts

  /** Equal wholes with one equal part have equal other parts. */
  lemma SplitMultiset<E>(a: seq<E>, b: seq<E>, num: nat)
    requires num <= |a| == |b|
    requires a[num..] == b[num..] || a[..num] == b[..num]
    requires multiset(a) == multiset(b)
    ensures multiset(a[..num]) == multiset(b[..num])
    ensures multiset(a[num..]) == multiset(b[num..])
  {
    assert a == a[..num] + a[num..];
    assert b == b[..num] + b[num..];
    if a[num..] == b[num..] {
      CancelRight(multiset(a[..num]), multiset(b[..num]), multiset(a[num..]));
    } else {
      CancelLeft(multiset(a[..num]), multiset(a[num..]), multiset(b[num..]));
    }
  }

  lemma CancelLeft<E>(z: multiset<E>, x: multiset<E>, y: multiset<E>)
    requires z + x == z + y
    ensures x == y
  {
    forall v ensures x[v] == y[v] {
      assert (z + x)[v] == (z + y)[v];
    }
  }

  lemma CancelRight<E>(x: multiset<E>, y: multiset<E>, z: multiset<E>)
    requires x + z == y + z
    ensures x == y
  {
    forall v ensures x[v] == y[v] {
      assert (x + z)[v] == (y + z)[v];
    }
  }

  lemma SwapMultiset<E>(a: seq<E>, i: nat, j: nat)
    requires i < |a| && j < |a|
    ensures multiset(a[i := a[j]][j := a[i]]) == multiset(a)
  {
  }

  lemma FrontRowsSnoc<E>(s: seq<E>, x: nat, numeric: E -> bool)
    requires x < |s|
    ensures FrontRows(s[..x + 1], numeric) == FrontRows(s[..x], numeric) + (if numeric(s[x]) then [] else [s[x]])
  {
    assert s[..x + 1][..x] == s[..x];
  }

  /** The front rows of a sequence already split at `num` are its first `num` rows. */
  lemma {:induction false} FrontRowsOfSplit<E>(s: seq<E>, num: nat, numeric: E -> bool)
    requires SplitAt(s, num, numeric)
    ensures FrontRows(s, numeric) == s[..num]
    decreases |s|
  {
    if |s| > 0 {
      var init := s[..|s| - 1];
      var n' := if num == |s| then num - 1 else num;
      assert SplitAt(init, n', numeric);
      FrontRowsOfSplit(init, n', numeric);
      assert init[..n'] == s[..n'];
      if num == |s| {
        assert s[..num] == s[..n'] + [s[|s| - 1]];
      }
    }
  }
}
