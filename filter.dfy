/**
 * The address allow-list of package chain (chain/filter.go).
 *
 * An AddressFilter wraps a list of address strings exactly as given, and
 * Allow is an exact-equality linear search over it. A Go nil slice and an
 * empty slice behave the same in the source and are both the empty
 * sequence here. The filter is an immutable value: nothing in the source
 * ever writes to its list after construction, so Allow only reads.
 */
module Filter {

  datatype AddressFilter = AddressFilter(address: seq<string>)
  {
    /** The membership test: true iff some stored address equals addr exactly. */
    function Allow(addr: string): (r: bool)
      ensures r <==> addr in address
    {
      Scan(address, addr, 0)
    }
  }

  /** NewAddressFilter keeps the list verbatim: same length, order and duplicates. */
  function NewAddressFilter(addr: seq<string>): (f: AddressFilter)
    ensures |f.address| == |addr|
    ensures forall i :: 0 <= i < |addr| ==> f.address[i] == addr[i]
    ensures forall a :: f.Allow(a) <==> a in addr
  {
    AddressFilter(addr)
  }

  /**
   * The for-range loop of Allow, from position i on: it returns true at the
   * first position holding addr and false once the list is exhausted.
   */
  function Scan(list: seq<string>, addr: string, i: nat): (r: bool)
    requires i <= |list|
    ensures r <==> exists j :: i <= j < |list| && list[j] == addr
    decreases |list| - i
  {
    if i == |list| then false
    else if list[i] == addr then true
    else Scan(list, addr, i + 1)
  }

  /** Deny-by-default: the filter built from an empty (or nil) list allows nothing. */
  lemma EmptyDeniesAll(a: string)
    ensures !NewAddressFilter([]).Allow(a)
  {
  }

  /** Matching is exact string equality: no case folding and no trimming. */
  lemma ExactMatchOnly()
    ensures NewAddressFilter(["f1"]).Allow("f1")
    ensures !NewAddressFilter(["f1"]).Allow("F1")
    ensures !NewAddressFilter(["f1"]).Allow(" f1")
    ensures !NewAddressFilter(["f1"]).Allow("f1 ")
  {
  }

  /**
   * Allow depends only on the set of stored addresses: two lists with the
   * same elements, in any order and with any duplicates, give the same answer
   * for every address.
   */
  lemma SameElementsSameAnswers(l1: seq<string>, l2: seq<string>, a: string)
    requires forall x :: x in l1 <==> x in l2
    ensures NewAddressFilter(l1).Allow(a) == NewAddressFilter(l2).Allow(a)
  {
  }

  /** Reordering the list (any permutation) never changes an answer. */
  lemma {:induction false} PermutationSameAnswers(l1: seq<string>, l2: seq<string>, a: string)
    requires multiset(l1) == multiset(l2)
    ensures NewAddressFilter(l1).Allow(a) == NewAddressFilter(l2).Allow(a)
  {
    assert a in l1 <==> a in multiset(l1);
    assert a in l2 <==> a in multiset(l2);
  }

  /** Duplicating an entry that is already present never changes an answer. */
  lemma DuplicateSameAnswers(l: seq<string>, i: nat, a: string)
    requires i < |l|
    ensures NewAddressFilter(l + [l[i]]).Allow(a) == NewAddressFilter(l).Allow(a)
  {
  }

  /** Monotonicity: an address allowed by L is allowed by every list containing all of L. */
  lemma Monotone(l: seq<string>, m: seq<string>, a: string)
    requires forall x :: x in l ==> x in m
    requires NewAddressFilter(l).Allow(a)
    ensures NewAddressFilter(m).Allow(a)
  {
  }
}
