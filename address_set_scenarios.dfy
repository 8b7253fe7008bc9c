/**
 * The two tests of set_test.go replayed on the model of the address set.
 * Addresses are written as numbers: 1.1.1.1 is 0x0101_0101, and so on.
 */
module AddressSetScenarios {
  import opened Bits
  import opened Wrappers
  import opened Sorting
  import opened AddressSets

  /** A valid set is in particular ascending, which is what makes the
      lower-bound search of `Contains` exact. */
  lemma StrictIsAscending(s: seq<u32>)
    requires StrictlyIncreasing(s)
    ensures Ascending(s)
  {
    forall i, j | 0 <= i < j < |s| ensures Value(s[i]) <= Value(s[j]) {
      assert s[i] < s[j];
    }
  }

  /** The first half of TestAdd (set_test.go:6-33): an empty set is valid and
      does not hold 12.12.12.12; adding it succeeds once, a second time it is
      refused as a duplicate, and it is found afterwards. */
  method AddTwice() returns (s: AddressSet, answers: seq<bool>, lens: seq<nat>)
    ensures fresh(s) && s.elems == [0x0C0C_0C0C]
    ensures answers == [true, false, true, true, false, true]
    ensures lens == [0, 1]
  {
    s := new AddressSet(0);
    var len0 := s.Len();
    var v0 := s.Valid();
    var c0 := s.Contains(Some(0x0C0C_0C0C));
    var a1, _ := s.Add(Some(0x0C0C_0C0C));
    var len1 := s.Len();
    var v1 := s.Valid();
    StrictIsAscending(s.elems);
    var a2, _ := s.Add(Some(0x0C0C_0C0C));
    var c1 := s.Contains(Some(0x0C0C_0C0C));
    answers := [v0, c0, a1, v1, a2, c1];
    lens := [len0, len1];
  }

  /** set_test.go:35-49: 1.1.1.1 goes in front of 12.12.12.12, the set stays
      valid and holds both. */
  method AddSmaller(s: AddressSet) returns (answers: seq<bool>, len: nat)
    requires s.elems == [0x0C0C_0C0C]
    modifies s
    ensures s.elems == [0x0101_0101, 0x0C0C_0C0C]
    ensures answers == [true, true, true, true] && len == 2
  {
    var a, _ := s.Add(Some(0x0101_0101));
    len := s.Len();
    var v := s.Valid();
    StrictIsAscending(s.elems);
    var c0 := s.Contains(Some(0x0C0C_0C0C));
    var c1 := s.Contains(Some(0x0101_0101));
    answers := [a, v, c0, c1];
  }

  /** set_test.go:50-67: 6.6.6.6 goes between the two, and all three are
      found. */
  method AddBetween(s: AddressSet) returns (answers: seq<bool>, len: nat)
    requires s.elems == [0x0101_0101, 0x0C0C_0C0C]
    modifies s
    ensures s.elems == [0x0101_0101, 0x0606_0606, 0x0C0C_0C0C]
    ensures answers == [true, true, true, true, true] && len == 3
  {
    StrictIsAscending(s.elems);
    var a, _ := s.Add(Some(0x0606_0606));
    len := s.Len();
    var v := s.Valid();
    StrictIsAscending(s.elems);
    var c0 := s.Contains(Some(0x0C0C_0C0C));
    var c1 := s.Contains(Some(0x0101_0101));
    var c2 := s.Contains(Some(0x0606_0606));
    answers := [a, v, c0, c1, c2];
  }

  /** set_test.go:69-74: an address that does not parse is neither added nor
      found, and the set is left as it was. */
  method AddJunk(s: AddressSet) returns (added: bool, found: bool)
    modifies s
    ensures s.elems == old(s.elems)
    ensures !added && !found
  {
    ghost var pos;
    added, pos := s.Add(None);
    found := s.Contains(None);
  }

  /** set_test.go:76-85: appending 0 to the end breaks the order, and sort
      restores a valid set, here with no repeats to leave behind. */
  method AppendThenSort(s: AddressSet) returns (before: bool, after: bool)
    requires s.elems == [0x0101_0101, 0x0606_0606, 0x0C0C_0C0C]
    modifies s
    ensures s.elems == [0, 0x0101_0101, 0x0606_0606, 0x0C0C_0C0C]
    ensures !before && after
  {
    s.elems := s.elems + [0];
    AppendedZero(s.elems);
    before := s.Valid();
    ghost var sorted := s.Sort();
    SortedWithZero(sorted);
    ZeroFirstKept(sorted);
    after := s.Valid();
  }

  lemma AppendedZero(s: seq<u32>)
    requires s == [0x0101_0101, 0x0606_0606, 0x0C0C_0C0C] + [0]
    ensures !StrictlyIncreasing(s)
  {
    assert s[2] > s[3];
  }

  lemma SortedWithZero(sorted: seq<u32>)
    requires Ascending(sorted)
    requires multiset(sorted) == multiset([0x0101_0101, 0x0606_0606, 0x0C0C_0C0C] + [0])
    ensures sorted == [0, 0x0101_0101, 0x0606_0606, 0x0C0C_0C0C]
  {
    var expected: seq<u32> := [0, 0x0101_0101, 0x0606_0606, 0x0C0C_0C0C];
    ZeroMovesFirst(expected);
    ZeroFirstStrict(expected);
    StrictIsAscending(expected);
    AscendingUnique(sorted, expected);
  }

  lemma ZeroMovesFirst(expected: seq<u32>)
    requires expected == [0, 0x0101_0101, 0x0606_0606, 0x0C0C_0C0C]
    ensures multiset([0x0101_0101, 0x0606_0606, 0x0C0C_0C0C] + [0]) == multiset(expected)
  {
    var rest: seq<u32> := [0x0101_0101, 0x0606_0606, 0x0C0C_0C0C];
    assert expected == [0] + rest;
    assert multiset(rest + [0]) == multiset(rest) + multiset([0]);
  }

  lemma ZeroFirstStrict(s: seq<u32>)
    requires s == [0, 0x0101_0101, 0x0606_0606, 0x0C0C_0C0C]
    ensures StrictlyIncreasing(s)
  {
    forall i, j | 0 <= i < j < |s| ensures s[i] < s[j] {
      assert s[0] < s[1] < s[2] < s[3];
    }
  }

  lemma ZeroFirstKept(s: seq<u32>)
    requires s == [0, 0x0101_0101, 0x0606_0606, 0x0C0C_0C0C]
    ensures Compacted(s) == s && StrictlyIncreasing(s)
  {
    ZeroFirstStrict(s);
    CompactedOfStrict(s);
  }

  /** TestAddAll (set_test.go:88-98): adding 127.0.0.1 and 10.0.0.1 to an
      empty set gives a valid set with 10.0.0.1 first. */
  method AddAllTwo() returns (s: AddressSet, valid: bool)
    ensures fresh(s) && s.elems == [0x0A00_0001, 0x7F00_0001]
    ensures valid
  {
    s := new AddressSet(0);
    ghost var expected: seq<u32> := [0x0A00_0001, 0x7F00_0001];
    var ok;
    ghost var sorted;
    ok, sorted := s.AddAll([Some(0x7F00_0001), Some(0x0A00_0001)]);
    assert Parsed([Some(0x7F00_0001), Some(0x0A00_0001)]) == [0x7F00_0001, 0x0A00_0001];
    assert multiset([0x7F00_0001, 0x0A00_0001]) == multiset(expected);
    StrictIsAscending(expected);
    AscendingUnique(sorted, expected);
    CompactedOfStrict(expected);
    valid := s.Valid();
  }
}
