/** `sortLines` (sst-doc.js:390-439): the in-place ordering applied to the
    stations of a line and to the lines of a department. Rows whose label
    `parseInt` reads as NaN or 0 go first and are ordered by letter prefix,
    then digit suffix; the rest follow in ascending numeric order.

    The passes themselves live in SortPasses; this module supplies the
    source's readings of a label and states what the whole sort achieves. */
module SortLines {
  import opened Wrappers
  import opened JsText
  import opened LabelKey
  import opened SortPasses

  /** One row of a sorted array: `arr[i][0]` is `name`, the other cells ride along. */
  datatype Entry<T> = Entry(name: string, payload: T)

  /** `parseInt(arr[i][0])` is truthy: the row belongs to the numeric block. */
  predicate IsNumeric<T>(e: Entry<T>) {
    ParsesNonZero(e.name)
  }

  /** The value the selection pass compares. */
  function Number<T>(e: Entry<T>): int {
    ParsedValue(e.name)
  }

  /** The groups the bubble pass compares, or None when the pattern does not match. */
  function Key<T>(e: Entry<T>): Option<LetterKey> {
    KeyOf(e.name)
  }

  /** The rows of `s` that are not numeric, in their order in `s`. */
  function LetterEntries<T>(s: seq<Entry<T>>): seq<Entry<T>> {
    FrontRows(s, IsNumeric)
  }

  /** The order the board displays: letter rows first, then each block sorted. */
  predicate Ordered<T>(s: seq<Entry<T>>) {
    var num := |LetterEntries(s)|;
    num <= |s| && SplitAt(s, num, IsNumeric) && SortedFrom(s, num, Number) && KeySortedUpTo(s, num, Key)
  }

  /** The whole of `sortLines`. `num` is the size of the letter block. `ok`
      is false when the source throws: the letter block has two rows or
      more and one of them does not match the label pattern. The rows are
      then left as the failing comparison found them; the numeric block is
      sorted either way. `perm` records where each letter row came from in
      the input's letter rows. */
  method SortLines<T>(input: seq<Entry<T>>)
    returns (out: seq<Entry<T>>, num: nat, ok: bool, ghost perm: seq<int>)
    ensures |out| == |input| && multiset(out) == multiset(input)
    ensures num == |LetterEntries(input)| <= |out|
    ensures SplitAt(out, num, IsNumeric)
    ensures SortedFrom(out, num, Number)
    ensures ok <==> (num < 2 || forall i :: 0 <= i < num ==> Key(LetterEntries(input)[i]).Some?)
    ensures ok ==> Ordered(out)
    ensures IsPermutation(perm, num)
    ensures forall i {:trigger perm[i]} :: 0 <= i < num ==> out[i] == LetterEntries(input)[perm[i]]
    ensures forall i, j {:trigger perm[i], perm[j]} :: 0 <= i < j < num && SameKey(out[i], out[j], Key) ==> perm[i] < perm[j]
    ensures Ordered(input) ==> ok && out == input
  {
    var moved, n := MoveLettersToFront(input, IsNumeric);
    var numbered := SortNumberBlock(moved, n, Number);
    out, ok, perm := SortLetterBlock(numbered, n, Key);
    num := n;
    MultisetOfSortedBlocks(moved, numbered, out, num);
    SplitAfterSorting(moved, numbered, out, num);
    SortedFromSameTail(out, numbered, num, Number);
    LetterBlockOrigins(input, numbered, out, num, ok, perm);
    if ok {
      FrontRowsOfSplit(out, num, IsNumeric);
    }
    if Ordered(input) {
      OrderedIsNumericLast(input);
    }
  }

  /** The letter pass sees the input's letter rows, since the numeric pass
      leaves them where the first pass put them. */
  lemma LetterBlockOrigins<T>(input: seq<Entry<T>>, numbered: seq<Entry<T>>, out: seq<Entry<T>>,
                              num: nat, ok: bool, perm: seq<int>)
    requires num <= |numbered| && num <= |out| && numbered[..num] == LetterEntries(input)
    requires IsPermutation(perm, num)
    requires forall i {:trigger perm[i]} :: 0 <= i < num ==> out[i] == numbered[perm[i]]
    requires ok <==> (num < 2 || forall i :: 0 <= i < num ==> Key(numbered[i]).Some?)
    ensures ok <==> (num < 2 || forall i :: 0 <= i < num ==> Key(LetterEntries(input)[i]).Some?)
    ensures forall i {:trigger perm[i]} :: 0 <= i < num ==> out[i] == LetterEntries(input)[perm[i]]
  {
    assert forall i :: 0 <= i < num ==> LetterEntries(input)[i] == numbered[i];
  }

  /** The numeric pass and the letter pass rearrange only their own blocks. */
  lemma MultisetOfSortedBlocks<T>(moved: seq<Entry<T>>, numbered: seq<Entry<T>>, out: seq<Entry<T>>, num: nat)
    requires num <= |moved| == |numbered| == |out|
    requires numbered[..num] == moved[..num] && multiset(numbered[num..]) == multiset(moved[num..])
    requires out[num..] == numbered[num..] && multiset(out[..num]) == multiset(numbered[..num])
    ensures multiset(out) == multiset(moved)
  {
    assert out == out[..num] + out[num..];
    assert moved == moved[..num] + moved[num..];
  }

  /** The letter and numeric blocks keep their boundary through the later passes. */
  lemma SplitAfterSorting<T>(moved: seq<Entry<T>>, numbered: seq<Entry<T>>, out: seq<Entry<T>>, num: nat)
    requires num <= |moved| == |numbered| == |out|
    requires SplitAt(moved, num, IsNumeric)
    requires numbered[..num] == moved[..num] && multiset(numbered[num..]) == multiset(moved[num..])
    requires out[num..] == numbered[num..] && multiset(out[..num]) == multiset(numbered[..num])
    ensures SplitAt(out, num, IsNumeric)
  {
    forall i | 0 <= i < num
      ensures !IsNumeric(out[i])
    {
      assert out[i] in multiset(out[..num]) by { assert out[..num][i] == out[i]; }
      var k :| 0 <= k < num && moved[..num][k] == out[i];
    }
    forall i | num <= i < |out|
      ensures IsNumeric(out[i])
    {
      assert out[i] == numbered[num..][i - num];
      assert out[i] in multiset(moved[num..]);
      var k :| 0 <= k < |moved| - num && moved[num..][k] == out[i];
    }
  }

  lemma SortedFromSameTail<E>(a: seq<E>, b: seq<E>, num: nat, number: E -> int)
    requires num <= |a| == |b| && a[num..] == b[num..]
    requires SortedFrom(b, num, number)
    ensures SortedFrom(a, num, number)
  {
    forall i, j | num <= i < j < |a|
      ensures number(a[i]) <= number(a[j])
    {
      assert a[i] == a[num..][i - num] && a[j] == a[num..][j - num];
    }
  }

  lemma OrderedIsNumericLast<T>(s: seq<Entry<T>>)
    requires Ordered(s)
    ensures NumericLast(s, IsNumeric)
  {
  }
}
