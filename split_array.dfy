/** SplitArray.cpp: splitting a C string on a separator into a NULL-terminated
    array of owned copies, counting, releasing and shuffling that array.

    A `char **` is an `array<Option<string>>`: `None` is a NULL slot and
    `Some(s)` a slot owning a copy of `s`. The handle itself may be NULL, so
    functions returning or taking one use `Option<array<...>>`. */
module SplitArray {
  import opened CStrings

  /** The contents of a split array, slot by slot. */
  type Slots = seq<Option<string>>

  type Handle = Option<array<Option<string>>>

  // ---------------------------------------------------------------------------
  // Fragments: what lies between the separators

  /** The pieces of `s` between occurrences of `sep`, found with strchr from
      left to right; an input with k separators has k + 1 pieces, some
      possibly empty. */
  ghost function Fragments(s: string, sep: char): (r: seq<string>)
    ensures |r| >= 1
    decreases |s|
  {
    if sep !in s then [s]
    else
      var j := IndexOfChar(s, sep);
      [s[..j]] + Fragments(s[j + 1..], sep)
  }

  /** The fragments joined back with the separator between them. */
  function Join(fs: seq<string>, sep: char): string
    requires |fs| >= 1
  {
    if |fs| == 1 then fs[0] else fs[0] + [sep] + Join(fs[1..], sep)
  }

  /** There is one more fragment than there are separators (the count loop at
      lines 41-48), and no fragment holds the separator. */
  lemma {:induction false} FragmentsCount(s: string, sep: char)
    ensures |Fragments(s, sep)| == multiset(s)[sep] + 1
    ensures forall k :: 0 <= k < |Fragments(s, sep)| ==> sep !in Fragments(s, sep)[k]
    decreases |s|
  {
    if sep in s {
      var j := IndexOfChar(s, sep);
      FragmentsCount(s[j + 1..], sep);
      assert s == s[..j] + [sep] + s[j + 1..];
      assert multiset(s) == multiset(s[..j]) + multiset{sep} + multiset(s[j + 1..]);
      assert sep !in multiset(s[..j]);
    } else {
      assert sep !in multiset(s);
    }
  }

  /** Joining the fragments with the separator gives back the input. */
  lemma {:induction false} JoinFragments(s: string, sep: char)
    ensures Join(Fragments(s, sep), sep) == s
    decreases |s|
  {
    if sep in s {
      var j := IndexOfChar(s, sep);
      JoinFragments(s[j + 1..], sep);
      FragmentCut(s, sep, j);
      var fs := Fragments(s, sep);
      assert Join(fs, sep) == fs[0] + [sep] + Join(fs[1..], sep);
      assert s == s[..j] + [sep] + s[j + 1..];
    } else {
      LastFragment(s, sep);
    }
  }

  /** Splitting a join of separator-free pieces gives the pieces back. */
  lemma {:induction false} FragmentsJoin(fs: seq<string>, sep: char)
    requires |fs| >= 1
    requires forall k :: 0 <= k < |fs| ==> sep !in fs[k]
    ensures Fragments(Join(fs, sep), sep) == fs
  {
    if |fs| > 1 {
      var t := Join(fs[1..], sep);
      assert forall k :: 0 <= k < |fs| - 1 ==> fs[1..][k] == fs[k + 1];
      FragmentsJoin(fs[1..], sep);
      assert Join(fs, sep) == fs[0] + [sep] + t;
      FragmentsOfGlue(fs[0], sep, t);
      assert fs == [fs[0]] + fs[1..];
    }
  }

  /** A separator-free piece glued to the rest is the first fragment. */
  lemma FragmentsOfGlue(x: string, sep: char, t: string)
    requires sep !in x
    ensures Fragments(x + [sep] + t, sep) == [x] + Fragments(t, sep)
  {
    var s := x + [sep] + t;
    assert s[..|x|] == x && s[|x|] == sep && s[|x| + 1..] == t;
    FragmentsStep(s, sep, |x|);
  }

  /** The first empty fragment, or the number of fragments when none is empty. */
  function FirstEmpty(fs: seq<string>): (r: nat)
    ensures r <= |fs|
    ensures forall k :: 0 <= k < r ==> fs[k] != []
    ensures r < |fs| ==> fs[r] == []
  {
    if fs == [] || fs[0] == [] then 0 else 1 + FirstEmpty(fs[1..])
  }

  // ---------------------------------------------------------------------------
  // The slot-filling loop of createSplitArray (lines 54-72)

  /** Empty fragments among the first i; each lowered `num` by one (line 68). */
  function EmptiesBefore(fs: seq<string>, i: nat): nat
    requires i <= |fs|
  {
    if i == 0 then 0 else EmptiesBefore(fs, i - 1) + if fs[i - 1] == [] then 1 else 0
  }

  /** The value of `num` when the loop test `i < num` is made for index i. */
  function Bound(fs: seq<string>, i: nat): int
    requires i <= |fs|
  {
    |fs| - EmptiesBefore(fs, i)
  }

  /** The index at which the slot-filling loop, started at i, stops: the first
      index from i on where `i < num` fails. */
  function Stop(fs: seq<string>, i: nat): (r: nat)
    requires i <= |fs|
    ensures i <= r <= |fs|
    ensures r >= Bound(fs, r)
    ensures forall j :: i <= j < r ==> j < Bound(fs, j)
    decreases |fs| - i
  {
    if i >= Bound(fs, i) then i else Stop(fs, i + 1)
  }

  /** The slots createSplitArray fills for fragments fs: |fs| + 1 zeroed slots,
      where slot k owns fragment k if the loop reached k and fragment k is not
      empty, and is NULL otherwise. */
  function SplitSlots(fs: seq<string>): (r: Slots)
    requires |fs| >= 1
    ensures |r| == |fs| + 1
  {
    var stop := Stop(fs, 0);
    seq(|fs| + 1, k requires 0 <= k <= |fs| => if k < stop && fs[k] != [] then Some(fs[k]) else None)
  }

  /** What createSplitArray(str, sep) returns for a C string: NULL for the
      empty string, otherwise the slots of its fragments. */
  ghost function Split(s: string, sep: char): (r: Option<Slots>)
  {
    if |s| == 0 then None else Some(SplitSlots(Fragments(s, sep)))
  }

  // ---------------------------------------------------------------------------
  // countSplitArray: the index of the first NULL

  /** The number of elements of a split array: the index of its first NULL slot. */
  function Count(slots: Slots): (n: nat)
    requires None in slots
    ensures n < |slots| && slots[n] == None
    ensures forall k :: 0 <= k < n ==> slots[k].Some?
  {
    if slots[0] == None then 0 else 1 + Count(slots[1..])
  }

  /** The elements a reader that stops at the first NULL sees. */
  function Elements(slots: Slots): (r: seq<string>)
    requires None in slots
    ensures |r| == Count(slots)
    ensures forall k :: 0 <= k < |r| ==> slots[k] == Some(r[k])
  {
    seq(Count(slots), k requires 0 <= k < Count(slots) => slots[k].value)
  }

  /** The elements of a split are exactly the fragments before the first empty
      one: an empty fragment leaves a NULL hole that hides every later slot. */
  lemma SplitElements(fs: seq<string>)
    requires |fs| >= 1
    ensures None in SplitSlots(fs)
    ensures Count(SplitSlots(fs)) == FirstEmpty(fs)
    ensures Elements(SplitSlots(fs)) == fs[..FirstEmpty(fs)]
  {
    SlotsBeforeFirstEmpty(fs);
    ElementsAt(SplitSlots(fs), fs[..FirstEmpty(fs)]);
  }

  /** Slot by slot up to the first empty fragment: copies, then a NULL. */
  lemma SlotsBeforeFirstEmpty(fs: seq<string>)
    requires |fs| >= 1
    ensures SplitSlots(fs)[FirstEmpty(fs)] == None
    ensures forall k :: 0 <= k < FirstEmpty(fs) ==> SplitSlots(fs)[k] == Some(fs[..FirstEmpty(fs)][k])
  {
    StopReachesFirstEmpty(fs);
  }

  /** The loop reaches at least the first empty fragment: before it, no index
      has lowered `num`. */
  lemma StopReachesFirstEmpty(fs: seq<string>)
    requires |fs| >= 1
    ensures FirstEmpty(fs) <= Stop(fs, 0)
  {
    var r := Stop(fs, 0);
    if r < FirstEmpty(fs) {
      NoEmptiesBefore(fs, r);
      assert false;
    }
  }

  /** Slots holding xs and then a NULL have xs as their elements. */
  lemma ElementsAt(slots: Slots, xs: seq<string>)
    requires |xs| < |slots| && slots[|xs|] == None
    requires forall k :: 0 <= k < |xs| ==> slots[k] == Some(xs[k])
    ensures None in slots && Count(slots) == |xs| && Elements(slots) == xs
  {
    CountAt(slots, |xs|);
  }

  /** A slot sequence whose first NULL is at n counts n elements. */
  lemma {:induction false} CountAt(slots: Slots, n: nat)
    requires n < |slots| && slots[n] == None
    requires forall k :: 0 <= k < n ==> slots[k].Some?
    ensures None in slots && Count(slots) == n
  {
    if n > 0 {
      var t := slots[1..];
      assert forall k :: 0 <= k < n - 1 ==> t[k] == slots[k + 1];
      CountAt(t, n - 1);
      assert slots[0].Some?;
    }
  }

  lemma {:induction false} NoEmptiesBefore(fs: seq<string>, i: nat)
    requires i <= |fs| && forall k :: 0 <= k < i ==> fs[k] != []
    ensures EmptiesBefore(fs, i) == 0
  {
    if i > 0 {
      NoEmptiesBefore(fs, i - 1);
    }
  }

  /** Every split of a non-empty string carries the NULL sentinel, at index
      Count, within its |fragments| + 1 slots. */
  lemma SplitHasSentinel(s: string, sep: char)
    requires s != []
    ensures Split(s, sep).Some?
    ensures |Split(s, sep).value| == multiset(s)[sep] + 2
    ensures None in Split(s, sep).value
    ensures Split(s, sep).value[Count(Split(s, sep).value)] == None
  {
    FragmentsCount(s, sep);
    SplitElements(Fragments(s, sep));
  }

  /** An input without the separator gives one element, the whole input. */
  lemma SplitWithoutSeparator(s: string, sep: char)
    requires s != [] && sep !in s
    ensures Split(s, sep) == Some([Some(s), None])
  {
    assert Fragments(s, sep) == [s];
    assert [s][..0] == [] && [s][..1] == [s];
    assert Bound([s], 0) == 1;
    assert Bound([s], 1) == 1;
    assert Stop([s], 0) == 1;
    var slots := SplitSlots([s]);
    assert slots[0] == Some(s) && slots[1] == None;
    assert slots == [Some(s), None];
  }

  /** No separator first, last, or next to another. */
  predicate NoEmptyFragment(s: string, sep: char) {
    s != [] && s[0] != sep && s[|s| - 1] != sep &&
    forall i :: 0 <= i < |s| - 1 ==> !(s[i] == sep && s[i + 1] == sep)
  }

  lemma {:induction false} FragmentsNonEmpty(s: string, sep: char)
    requires NoEmptyFragment(s, sep)
    ensures forall k :: 0 <= k < |Fragments(s, sep)| ==> Fragments(s, sep)[k] != []
    decreases |s|
  {
    if sep in s {
      var j := IndexOfChar(s, sep);
      var t := s[j + 1..];
      assert j > 0;
      assert t != [] by { assert j != |s| - 1; }
      assert t[0] != sep by { assert s[j + 1] == t[0]; }
      assert t[|t| - 1] == s[|s| - 1];
      forall i | 0 <= i < |t| - 1 ensures !(t[i] == sep && t[i + 1] == sep) {
        assert t[i] == s[j + 1 + i] && t[i + 1] == s[j + 1 + i + 1];
      }
      FragmentsNonEmpty(t, sep);
    }
  }

  /** With k >= 1 separators and no empty fragment, a split has k + 1 elements,
      element i is the i-th fragment, and joining them with the separator gives
      back the input. */
  lemma SplitWellFormed(s: string, sep: char)
    requires NoEmptyFragment(s, sep)
    ensures Split(s, sep).Some? && None in Split(s, sep).value
    ensures Count(Split(s, sep).value) == multiset(s)[sep] + 1
    ensures Elements(Split(s, sep).value) == Fragments(s, sep)
    ensures Join(Elements(Split(s, sep).value), sep) == s
  {
    var fs := Fragments(s, sep);
    FragmentsNonEmpty(s, sep);
    FragmentsCount(s, sep);
    SplitElements(fs);
    assert FirstEmpty(fs) == |fs|;
    assert fs[..|fs|] == fs;
    JoinFragments(s, sep);
  }

  /** An empty fragment the loop reaches leaves its slot NULL, and lowers the
      bound the loop runs to. */
  lemma EmptyFragmentLeavesHole(fs: seq<string>, i: nat)
    requires |fs| >= 1 && i < Stop(fs, 0) && fs[i] == []
    ensures SplitSlots(fs)[i] == None
    ensures i + 1 <= |fs| && Bound(fs, i + 1) == Bound(fs, i) - 1
  {
    BoundStep(fs, i);
  }

  /** Each index the loop passes lowers the bound by one exactly when its fragment is empty. */
  lemma BoundStep(fs: seq<string>, i: nat)
    requires i < |fs|
    ensures Bound(fs, i + 1) == if fs[i] == [] then Bound(fs, i) - 1 else Bound(fs, i)
  {
  }

  lemma FragmentsOfAdjacent()
    ensures Fragments("a..b", '.') == ["a", "", "b"]
  {
    var fs := ["a", "", "b"];
    assert Join(fs[2..], '.') == "b";
    assert Join(fs[1..], '.') == ".b";
    assert Join(fs, '.') == "a..b";
    FragmentsJoin(fs, '.');
  }

  lemma SlotsOfAdjacent()
    ensures SplitSlots(["a", "", "b"]) == [Some("a"), None, None, None]
  {
    var fs := ["a", "", "b"];
    assert EmptiesBefore(fs, 1) == 0;
    assert EmptiesBefore(fs, 2) == 1;
    assert Stop(fs, 2) == 2;
    assert Stop(fs, 0) == 2;
    var slots := SplitSlots(fs);
    assert slots[0] == Some("a");
    assert slots[1] == None;
    assert slots[2] == None;
    assert slots[3] == None;
  }

  /** "a..b": the hole at index 1 stops the count at 1, and the loop quits
      before it reaches "b". */
  lemma SplitAdjacentSeparators()
    ensures Split("a..b", '.') == Some([Some("a"), None, None, None])
    ensures Count(Split("a..b", '.').value) == 1
  {
    FragmentsOfAdjacent();
    SlotsOfAdjacent();
    var slots: Slots := [Some("a"), None, None, None];
    assert slots[0] != None && slots[1] == None;
    assert Count(slots) == 1;
  }

  lemma FragmentsOfLeading()
    ensures Fragments(".a", '.') == ["", "a"]
  {
    var fs := ["", "a"];
    assert Join(fs[1..], '.') == "a";
    assert Join(fs, '.') == ".a";
    FragmentsJoin(fs, '.');
  }

  lemma SlotsOfLeading()
    ensures SplitSlots(["", "a"]) == [None, None, None]
  {
    var fs := ["", "a"];
    assert EmptiesBefore(fs, 1) == 1;
    assert Stop(fs, 1) == 1;
    assert Stop(fs, 0) == 1;
    var slots := SplitSlots(fs);
    assert slots[0] == None;
    assert slots[1] == None;
    assert slots[2] == None;
  }

  /** ".a": the array exists but counts no element. */
  lemma SplitLeadingSeparator()
    ensures Split(".a", '.') == Some([None, None, None])
    ensures Count(Split(".a", '.').value) == 0
  {
    FragmentsOfLeading();
    SlotsOfLeading();
  }

  lemma FragmentsOfTrailing()
    ensures Fragments("a.", '.') == ["a", ""]
  {
    var fs := ["a", ""];
    assert Join(fs[1..], '.') == "";
    assert Join(fs, '.') == "a.";
    FragmentsJoin(fs, '.');
  }

  lemma SlotsOfTrailing()
    ensures SplitSlots(["a", ""]) == [Some("a"), None, None]
  {
    var fs := ["a", ""];
    assert EmptiesBefore(fs, 1) == 0;
    assert EmptiesBefore(fs, 2) == 1;
    assert Stop(fs, 2) == 2;
    assert Stop(fs, 0) == 2;
    var slots := SplitSlots(fs);
    assert slots[0] == Some("a");
    assert slots[1] == None;
    assert slots[2] == None;
  }

  /** "a.": the trailing empty fragment is dropped; the element is "a". */
  lemma SplitTrailingSeparator()
    ensures Split("a.", '.') == Some([Some("a"), None, None])
    ensures Elements(Split("a.", '.').value) == ["a"]
  {
    FragmentsOfTrailing();
    SlotsOfTrailing();
    var slots: Slots := [Some("a"), None, None];
    assert slots[0] != None && slots[1] == None;
    assert Count(slots) == 1;
    assert Elements(slots)[0] == "a";
  }

  lemma FragmentsBehindHole()
    ensures Fragments("a..b.c", '.') == ["a", "", "b", "c"]
  {
    var fs := ["a", "", "b", "c"];
    assert Join(fs[3..], '.') == "c";
    assert Join(fs[2..], '.') == "b.c";
    assert Join(fs[1..], '.') == ".b.c";
    assert Join(fs, '.') == "a..b.c";
    FragmentsJoin(fs, '.');
  }

  lemma StopBehindHole()
    ensures Stop(["a", "", "b", "c"], 0) == 3
  {
    var fs := ["a", "", "b", "c"];
    assert EmptiesBefore(fs, 1) == 0;
    assert EmptiesBefore(fs, 2) == 1;
    assert EmptiesBefore(fs, 3) == 1;
    assert Stop(fs, 3) == 3;
    assert Stop(fs, 2) == 3;
    assert Stop(fs, 1) == 3;
  }

  lemma SlotsBehindHole()
    ensures SplitSlots(["a", "", "b", "c"]) == [Some("a"), None, Some("b"), None, None]
  {
    var fs := ["a", "", "b", "c"];
    StopBehindHole();
    var slots := SplitSlots(fs);
    assert slots[0] == Some("a");
    assert slots[1] == None;
    assert slots[2] == Some("b");
    assert slots[3] == None;
    assert slots[4] == None;
  }

  /** "a..b.c": "b" is copied into slot 2, behind the hole at slot 1, so it is
      not among the counted elements (and deleteSplitArray never frees it). */
  lemma SplitCopyBehindHole()
    ensures Split("a..b.c", '.') == Some([Some("a"), None, Some("b"), None, None])
    ensures Count(Split("a..b.c", '.').value) == 1
  {
    FragmentsBehindHole();
    SlotsBehindHole();
    var slots: Slots := [Some("a"), None, Some("b"), None, None];
    assert slots[0] != None && slots[1] == None;
    assert Count(slots) == 1;
  }

  /** One strchr step of Fragments, at a known first separator. */
  lemma FragmentsStep(s: string, sep: char, j: nat)
    requires j < |s| && s[j] == sep && sep !in s[..j]
    ensures Fragments(s, sep) == [s[..j]] + Fragments(s[j + 1..], sep)
  {
    IndexOfCharAt(s, sep, j);
  }

  // ---------------------------------------------------------------------------
  // The operations

  /** createSplitArray(const char *str, char sep), lines 31-75. The strdup'ed
      working copy `datp` is a character sequence that the method rewrites;
      the returned array of slots is fresh. */
  method CreateSplitArray(str: string, sep: char) returns (r: Handle)
    requires IsCString(str) && sep != NUL
    ensures r.None? <==> Split(str, sep).None?
    ensures r.Some? ==> fresh(r.value) && r.value[..] == Split(str, sep).value
  {
    var len := |str|;
    if len <= 0 {
      return None;
    }
    var datp := str + [NUL];
    assert datp[..len] == str;
    var num := CountSeparators(datp, len, sep);
    num := num + 1;
    // num + 1 zeroed slots: the last is the NULL sentinel
    var ppArray := new Option<string>[num + 1](_ => None);
    var p1 := 0;
    if num == 1 {
      CStrAt(datp, p1, len);
      var l := StrLen(datp, p1);
      ppArray[0] := Some(datp[p1..p1 + l]);
      assert ppArray[..] == [Some(str), None];
      SingleFragment(str, sep);
    } else {
      FillSlots(datp, len, sep, ppArray, num);
    }
    r := Some(ppArray);
  }

  /** A string with exactly one fragment splits into that string and the sentinel. */
  lemma SingleFragment(s: string, sep: char)
    requires s != [] && |Fragments(s, sep)| == 1
    ensures Split(s, sep) == Some([Some(s), None])
  {
    FragmentsCount(s, sep);
    assert sep !in s by {
      assert multiset(s)[sep] == 0;
    }
    SplitWithoutSeparator(s, sep);
  }

  /** The counting loop of lines 41-48 (before `num += 1`): the number of
      separators strchr finds in the copy, one less than the number of
      fragments. */
  method CountSeparators(datp: seq<char>, len: nat, sep: char) returns (num: nat)
    requires len < |datp| && datp[len] == NUL && NUL !in datp[..len] && sep != NUL
    ensures num + 1 == |Fragments(datp[..len], sep)|
  {
    num := 0;
    var p1: nat := 0;
    ghost var rest := datp[..len];
    ghost var total := |Fragments(rest, sep)|;
    assert datp[0..len] == rest;
    while datp[p1] != NUL
      invariant p1 <= len
      invariant rest == datp[p1..len] && NUL !in rest
      invariant num + |Fragments(rest, sep)| == total
      decreases len - p1
    {
      CStrAt(datp, p1, len);
      var q := StrChr(datp, p1, sep);
      if q.None? {
        return;
      }
      ghost var j := q.value - p1;
      FragmentCut(rest, sep, j);
      SliceOfSlice(datp, p1, q.value, len);
      num := num + 1;
      p1 := q.value + 1;
      rest := rest[j + 1..];
    }
  }

  /** Cutting at the first separator, at offset j: the first fragment is what
      precedes it and the others are the fragments of what follows. */
  lemma FragmentCut(rest: string, sep: char, j: nat)
    requires sep in rest && j == IndexOfChar(rest, sep)
    ensures |Fragments(rest, sep)| > 1 && Fragments(rest, sep)[1..] == Fragments(rest[j + 1..], sep)
    ensures Fragments(rest, sep)[0] == rest[..j]
  {
    Cons(rest[..j], Fragments(rest[j + 1..], sep));
  }

  lemma Cons<T>(x: T, t: seq<T>)
    ensures ([x] + t)[0] == x && ([x] + t)[1..] == t && |[x] + t| == |t| + 1
  {
  }

  lemma SliceOfSlice(d: seq<char>, p1: nat, p2: nat, len: nat)
    requires p1 <= p2 < len <= |d|
    ensures d[p1..len][..p2 - p1] == d[p1..p2]
    ensures d[p1..len][p2 - p1 + 1..] == d[p2 + 1..len]
    ensures NUL !in d[p1..len] ==> NUL !in d[p2 + 1..len]
  {
    assert forall k :: p2 + 1 <= k < len ==> d[k] == d[p1..len][k - p1];
  }

  /** The slot-filling loop of lines 57-71, taken when there is at least one
      separator: fragment i is cut off in the copy and copied into slot i if it
      is not empty; each empty one lowers `num`. */
  method FillSlots(copy: seq<char>, len: nat, sep: char, ppArray: array<Option<string>>, num0: nat)
    requires len < |copy| && copy[len] == NUL && NUL !in copy[..len] && sep != NUL
    requires num0 == |Fragments(copy[..len], sep)| >= 2 && ppArray.Length == num0 + 1
    requires forall k :: 0 <= k < ppArray.Length ==> ppArray[k] == None
    modifies ppArray
    ensures ppArray[..] == SplitSlots(Fragments(copy[..len], sep))
  {
    ghost var rest := copy[..len];
    ghost var fs := Fragments(rest, sep);
    var datp := copy;
    var num := num0;
    var p1: nat := 0;
    var i: nat := 0;
    assert datp[0..len] == rest;
    while i < num
      invariant At(datp, len, p1, rest, fs, i, sep)
      invariant num == Bound(fs, i)
      invariant Stop(fs, i) == Stop(fs, 0)
      invariant ppArray[..] == Filled(fs, i)
      decreases num - i
    {
      ghost var next;
      StopStep(fs, i);
      datp, p1, num, next := FillStep(datp, len, p1, sep, rest, fs, i, num, ppArray);
      i := i + 1;
      rest := next;
    }
    FilledAtStop(fs, i);
  }

  /** One pass of the slot-filling loop at index i: fragment i is cut off and
      copied into slot i when it is not empty, or lowers `num` when it is. */
  method FillStep(datp: seq<char>, len: nat, p1: nat, sep: char, ghost rest: string, ghost fs: seq<string>,
                  i: nat, num: nat, ppArray: array<Option<string>>)
      returns (datp': seq<char>, p1': nat, num': nat, ghost next: string)
    requires At(datp, len, p1, rest, fs, i, sep) && i < num == Bound(fs, i) && sep != NUL
    requires ppArray.Length == |fs| + 1 && ppArray[..] == Filled(fs, i)
    modifies ppArray
    ensures At(datp', len, p1', next, fs, i + 1, sep)
    ensures num' == Bound(fs, i + 1) && ppArray[..] == Filled(fs, i + 1)
  {
    var p2, l;
    datp', p2, l, next := CutFragment(datp, len, p1, sep, rest, fs, i);
    BoundStep(fs, i);
    FilledStep(fs, i);
    num' := num;
    if l > 0 {
      ppArray[i] := Some(datp'[p1..p1 + l]);
      assert ppArray[..] == Filled(fs, i)[i := Some(fs[i])];
    } else {
      num' := num - 1;
    }
    p1' := p2 + 1;
  }

  /** Where the slot-filling loop stands before index i: the copy still ends
      in NUL at len, and while fragments remain, `rest` is the text from p1 to
      len, whose fragments are those from index i on. */
  ghost predicate At(datp: seq<char>, len: nat, p1: nat, rest: string, fs: seq<string>, i: nat, sep: char) {
    i <= |fs| && len < |datp| && datp[len] == NUL &&
    (i < |fs| ==> p1 <= len && rest == datp[p1..len] && NUL !in rest && Fragments(rest, sep) == fs[i..])
  }

  /** One pass of CutFragment moves the loop from index i to i + 1 and cuts
      off fragment i. */
  lemma CutAdvances(datp: seq<char>, len: nat, p1: nat, rest: string, fs: seq<string>, i: nat, sep: char,
                    datp': seq<char>, p2: nat, l: nat, next: string)
    requires At(datp, len, p1, rest, fs, i, sep) && i < |fs|
    requires datp' == if p2 < len then datp[p2 := NUL] else datp
    requires p1 + l == p2 <= len
    requires datp'[p1..p1 + l] == Fragments(rest, sep)[0]
    requires p2 == len <==> |Fragments(rest, sep)| == 1
    requires p2 < len ==> datp'[p2 + 1..len] == next && NUL !in next && Fragments(rest, sep)[1..] == Fragments(next, sep)
    ensures At(datp', len, p2 + 1, next, fs, i + 1, sep)
    ensures datp'[p1..p1 + l] == fs[i] && (l > 0 <==> fs[i] != [])
    ensures p2 == len <==> i + 1 == |fs|
  {
    Head(fs, i, Fragments(rest, sep));
    if i + 1 < |fs| {
      Advance(fs, i, Fragments(rest, sep), Fragments(next, sep));
    }
  }

  /** The slots after the loop has handled indices below i. */
  function Filled(fs: seq<string>, i: nat): (r: Slots)
    requires i <= |fs|
    ensures |r| == |fs| + 1
  {
    seq(|fs| + 1, k requires 0 <= k <= |fs| => if k < i && fs[k] != [] then Some(fs[k]) else None)
  }

  lemma FilledStep(fs: seq<string>, i: nat)
    requires i < |fs|
    ensures fs[i] != [] ==> Filled(fs, i + 1) == Filled(fs, i)[i := Some(fs[i])]
    ensures fs[i] == [] ==> Filled(fs, i + 1) == Filled(fs, i)
  {
  }

  /** An index the loop passes does not change where it stops. */
  lemma StopStep(fs: seq<string>, i: nat)
    requires i < |fs| && i < Bound(fs, i)
    ensures Stop(fs, i + 1) == Stop(fs, i)
  {
  }

  lemma FilledAtStop(fs: seq<string>, i: nat)
    requires 1 <= |fs| && i <= |fs| && i == Stop(fs, 0)
    ensures Filled(fs, i) == SplitSlots(fs)
  {
  }

  lemma Head<T>(fs: seq<T>, i: nat, r: seq<T>)
    requires i < |fs| && r == fs[i..]
    ensures |r| == |fs| - i && r[0] == fs[i]
  {
  }

  lemma Advance<T>(fs: seq<T>, i: nat, r: seq<T>, n: seq<T>)
    requires i < |fs| && r == fs[i..] && r[1..] == n
    ensures n == fs[i + 1..]
  {
  }

  /** Lines 58-65 of one pass, at fragment i: strchr from p1; a separator
      found is overwritten with NUL, otherwise the fragment runs to the
      terminator at len; then strlen from p1 measures the fragment, which is
      fragment i, and the loop stands at fragment i + 1 after it. */
  method CutFragment(datp: seq<char>, len: nat, p1: nat, sep: char, ghost rest: string, ghost fs: seq<string>, ghost i: nat)
      returns (datp': seq<char>, p2: nat, l: nat, ghost next: string)
    requires At(datp, len, p1, rest, fs, i, sep) && i < |fs| && sep != NUL
    ensures datp' == if p2 < len then datp[p2 := NUL] else datp
    ensures p1 + l == p2 <= len && (p2 == len <==> i + 1 == |fs|)
    ensures datp'[p1..p1 + l] == fs[i]
    ensures At(datp', len, p2 + 1, next, fs, i + 1, sep)
  {
    CStrAt(datp, p1, len);
    var q := StrChr(datp, p1, sep);
    if q.None? {
      p2 := len;
      datp' := datp;
      next := [];
      LastFragment(rest, sep);
    } else {
      p2 := q.value;
      datp' := datp[p2 := NUL];
      next := SeparatorCut(datp, len, p1, p2, sep, rest);
    }
    CStrAt(datp', p1, p2);
    l := StrLen(datp', p1);
    CutAdvances(datp, len, p1, rest, fs, i, sep, datp', p2, l, next);
  }

  lemma LastFragment(t: string, sep: char)
    requires sep !in t
    ensures Fragments(t, sep) == [t] && |Fragments(t, sep)| == 1 && Fragments(t, sep)[0] == t
  {
  }

  /** What writing NUL over the separator at p2 leaves in the copy. */
  lemma SeparatorCut(d: seq<char>, len: nat, p1: nat, p2: nat, sep: char, rest: string) returns (next: string)
    requires len < |d| && d[len] == NUL && p1 <= len && rest == d[p1..len] && NUL !in rest && sep != NUL
    requires sep in rest && p1 <= p2 && p2 == p1 + IndexOfChar(rest, sep)
    ensures p2 < len
    ensures d[p2 := NUL][p2] == NUL && NUL !in d[p2 := NUL][p1..p2]
    ensures |Fragments(rest, sep)| > 1 && Fragments(rest, sep)[1..] == Fragments(next, sep)
    ensures d[p2 := NUL][p2 + 1..len] == next && NUL !in next
    ensures d[p2 := NUL][p1..p2] == Fragments(rest, sep)[0]
  {
    var j := p2 - p1;
    FragmentCut(rest, sep, j);
    next := rest[j + 1..];
    NulWrite(d, p1, p2, len);
    SliceOfSlice(d, p1, p2, len);
  }

  lemma NulWrite(d: seq<char>, p1: nat, p2: nat, len: nat)
    requires p1 <= p2 < len < |d| && d[len] == NUL && NUL !in d[p1..len]
    ensures d[p2 := NUL][p1..p2] == d[p1..p2] && NUL !in d[p1..p2]
    ensures d[p2 := NUL][p2 + 1..len] == d[p2 + 1..len]
    ensures d[p2 := NUL][p2] == NUL && d[p2 := NUL][len] == NUL
  {
    assert forall k :: p1 <= k < len ==> d[k] == d[p1..len][k - p1];
  }

  /** createSplitArray(String str, char sep), lines 16-29: the Arduino String is
      copied into a NUL-terminated buffer and split as a C string, so an
      embedded NUL ends the text that is split. */
  method CreateSplitArrayFromString(str: string, sep: char) returns (r: Handle)
    requires sep != NUL
    ensures r.None? <==> CStr(str) == []
    ensures r.Some? ==> fresh(r.value) && r.value[..] == Split(CStr(str), sep).value
  {
    if |str| <= 0 {
      return None;
    }
    // toCharArray(datp, len + 1): the characters followed by a terminator
    var datp := str + [NUL];
    ghost var c := CStr(str);
    assert datp == str + [NUL] + [];
    CStrPadded(str, []);
    assert datp[0..] == datp;
    // createSplitArray(datp, sep) reads the C string up to the first NUL
    var n := StrLen(datp, 0);
    assert datp[..n] == c;
    r := CreateSplitArray(datp[..n], sep);
  }

  /** countSplitArray, lines 78-85: 0 for a NULL handle, otherwise the index of
      the first NULL slot. */
  method CountSplitArray(a: Handle) returns (n: nat)
    requires a.Some? ==> None in a.value[..]
    ensures a.None? ==> n == 0
    ensures a.Some? ==> n < a.value.Length && a.value[n] == None
    ensures a.Some? ==> forall k :: 0 <= k < n ==> a.value[k].Some?
  {
    if a.None? {
      return 0;
    }
    var arr := a.value;
    ghost var c := Count(arr[..]);
    n := 0;
    while arr[n] != None
      invariant n <= c
      invariant forall k :: 0 <= k < n ==> arr[k].Some?
      decreases c - n
    {
      n := n + 1;
    }
  }

  /** deleteSplitArray, lines 88-100: releases the first Count slots (each is
      set to NULL) and returns the strings it freed, in order. Slots behind a
      hole are not visited. Freeing the array itself has no counterpart here. */
  method DeleteSplitArray(a: Handle) returns (released: seq<string>)
    requires a.Some? ==> None in a.value[..]
    modifies if a.Some? then {a.value} else {}
    ensures a.None? ==> released == []
    ensures a.Some? ==> released == Elements(old(a.value[..]))
    ensures a.Some? ==> forall k :: 0 <= k < a.value.Length ==>
      a.value[k] == if k < |released| then None else old(a.value[k])
  {
    if a.None? {
      return [];
    }
    var arr := a.value;
    var num := CountSplitArray(a);
    ghost var before := arr[..];
    assert num == Count(before);
    released := [];
    for i := 0 to num
      invariant released == Elements(before)[..i]
      invariant forall k :: 0 <= k < arr.Length ==> arr[k] == if k < i then None else before[k]
    {
      if arr[i] != None {
        released := released + [arr[i].value];
        arr[i] := None;
      }
    }
  }

  // ---------------------------------------------------------------------------
  // shuffleSplitArray: a rolling "last written" slot

  /** The rolling moves of lines 111-116 on slots s: slot `last` takes the slot
      at each drawn index in turn, and the final `last` takes p. */
  function Cycle(s: Slots, last: nat, draws: seq<nat>, p: Option<string>): (r: Slots)
    requires last < |s| && forall k :: 0 <= k < |draws| ==> draws[k] < |s|
    ensures |r| == |s|
    decreases |draws|
  {
    if draws == [] then s[last := p]
    else Cycle(s[last := s[draws[0]]], draws[0], draws[1..], p)
  }

  /** What shuffleSplitArray does to the slots, given the values random(size) returned. */
  function Shuffled(s: Slots, draws: seq<nat>): (r: Slots)
    requires None in s
    requires forall k :: 0 <= k < |draws| ==> draws[k] < Count(s)
  {
    assert Count(s) < |s|;
    Cycle(s, 0, draws, s[0])
  }

  /** The moves only touch slots below n, and the multiset of those slots is
      the one they started with once the parked value p is put back at `last`. */
  lemma {:induction false} CyclePermutes(s: Slots, n: nat, last: nat, draws: seq<nat>, p: Option<string>)
    requires last < n <= |s| && forall k :: 0 <= k < |draws| ==> draws[k] < n
    ensures Cycle(s, last, draws, p)[n..] == s[n..]
    ensures multiset(Cycle(s, last, draws, p)[..n]) == multiset(s[..n][last := p])
    decreases |draws|
  {
    if draws == [] {
      assert s[last := p][..n] == s[..n][last := p];
    } else {
      var d := draws[0];
      var s' := s[last := s[d]];
      CyclePermutes(s', n, d, draws[1..], p);
      assert s'[n..] == s[n..];
      assert s'[..n] == s[..n][last := s[d]];
      MoveThroughHole(s[..n], last, d, p);
    }
  }

  /** Moving the value at d into the hole at `last` and then parking p at d
      leaves the same multiset as parking p at `last` directly. */
  lemma MoveThroughHole(t: Slots, last: nat, d: nat, p: Option<string>)
    requires last < |t| && d < |t|
    ensures multiset(t[last := t[d]][d := p]) == multiset(t[last := p])
  {
    if d != last {
      var u := t[last := t[d]];
      MultisetUpdate(t, last, t[d]);
      MultisetUpdate(u, d, p);
      MultisetUpdate(t, last, p);
    } else {
      assert t[last := t[d]][d := p] == t[last := p];
    }
  }

  /** The shuffle permutes the counted elements and leaves the sentinel and
      every later slot, and so the count, as they were. */
  lemma ShufflePermutes(s: Slots, draws: seq<nat>)
    requires None in s
    requires forall k :: 0 <= k < |draws| ==> draws[k] < Count(s)
    ensures |Shuffled(s, draws)| == |s|
    ensures Shuffled(s, draws)[Count(s)..] == s[Count(s)..]
    ensures multiset(Shuffled(s, draws)[..Count(s)]) == multiset(s[..Count(s)])
    ensures None in Shuffled(s, draws) && Count(Shuffled(s, draws)) == Count(s)
    ensures multiset(Elements(Shuffled(s, draws))) == multiset(Elements(s))
  {
    var n := Count(s);
    var r := Shuffled(s, draws);
    ShuffleSlots(s, draws);
    ShuffleCount(s, draws);
    MultisetValues(r[..n], Elements(r));
    MultisetValues(s[..n], Elements(s));
  }

  /** The slots below the count are permuted among themselves; the rest stay. */
  lemma ShuffleSlots(s: Slots, draws: seq<nat>)
    requires None in s
    requires forall k :: 0 <= k < |draws| ==> draws[k] < Count(s)
    ensures Shuffled(s, draws)[Count(s)..] == s[Count(s)..]
    ensures multiset(Shuffled(s, draws)[..Count(s)]) == multiset(s[..Count(s)])
  {
    var n := Count(s);
    if draws == [] {
      assert Shuffled(s, draws) == s[0 := s[0]] == s;
    } else {
      assert draws[0] < n;
      CyclePermutes(s, n, 0, draws, s[0]);
      assert s[..n][0 := s[0]] == s[..n];
    }
  }

  /** A permutation of the counted slots leaves no NULL among them, so the
      sentinel stays where it was. */
  lemma ShuffleCount(s: Slots, draws: seq<nat>)
    requires None in s
    requires forall k :: 0 <= k < |draws| ==> draws[k] < Count(s)
    ensures None in Shuffled(s, draws) && Count(Shuffled(s, draws)) == Count(s)
  {
    var n := Count(s);
    var r := Shuffled(s, draws);
    ShuffleSlots(s, draws);
    assert r[n] == s[n];
    assert None !in multiset(s[..n]) by {
      assert forall k :: 0 <= k < n ==> s[..n][k].Some?;
    }
    forall k | 0 <= k < n ensures r[k].Some? {
      assert r[..n][k] in multiset(r[..n]);
    }
    CountAt(r, n);
  }

  lemma MultisetUpdate<T>(t: seq<T>, i: nat, v: T)
    requires i < |t|
    ensures multiset(t[i := v]) == multiset(t) - multiset{t[i]} + multiset{v}
  {
    var a, b := t[..i], t[i + 1..];
    assert t == a + [t[i]] + b;
    assert t[i := v] == a + [v] + b;
    assert multiset(t) == multiset(a) + multiset{t[i]} + multiset(b);
    assert multiset(t[i := v]) == multiset(a) + multiset{v} + multiset(b);
  }

  /** Unwrapping a run of non-NULL slots keeps the multiset in step. */
  lemma {:induction false} MultisetValues(slots: Slots, vs: seq<string>)
    requires |slots| == |vs| && forall k :: 0 <= k < |vs| ==> slots[k] == Some(vs[k])
    ensures forall v :: multiset(vs)[v] == multiset(slots)[Some(v)]
  {
    if vs != [] {
      var m := |vs| - 1;
      MultisetValues(slots[..m], vs[..m]);
      assert slots == slots[..m] + [slots[m]];
      assert vs == vs[..m] + [vs[m]];
    }
  }

  /** shuffleSplitArray, lines 104-117; `draws` are the values random(size)
      returns, in order. A NULL handle is left alone. */
  method ShuffleSplitArray(a: Handle, draws: seq<nat>)
    requires a.Some? ==> None in a.value[..]
    requires a.Some? ==> |draws| == Count(a.value[..])
    requires a.Some? ==> forall k :: 0 <= k < |draws| ==> draws[k] < Count(a.value[..])
    modifies if a.Some? then {a.value} else {}
    ensures a.Some? ==> a.value[..] == Shuffled(old(a.value[..]), draws)
  {
    if a.None? {
      return;
    }
    var arr := a.value;
    var size := CountSplitArray(a);
    ghost var target := Shuffled(arr[..], draws);
    var last := 0;
    var p := arr[last];
    for i := 0 to size
      invariant last < size || last == 0
      invariant Cycle(arr[..], last, draws[i..], p) == target
    {
      var index := draws[i];
      assert draws[i..][1..] == draws[i + 1..];
      arr[last] := arr[index];
      last := index;
    }
    arr[last] := p;
  }
}
