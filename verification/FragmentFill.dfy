/** How full the fragments of a sample are, and so how many there are. */
module FragmentFill {
  import opened Wire
  import opened SampleHeaders
  import opened Fragmentation

  /** One split: a payload cut fills the head exactly and leaves it all entries; an entry cut takes the last entries,
      as many as fit, and no payload. */
  lemma SplitFills(s: Sample, size: nat)
    requires Splittable(s, size)
    ensures var (head, tail) := Split(s, size);
            if MarshaledSize(s.header) <= size then
              && Size(head) == size
              && head.header.entries == s.header.entries && tail.header.entries == []
              && !tail.header.flags.contentFilter
            else
              && Size(head) <= size < Size(head) + 16
              && head.payload == [] && tail.payload == s.payload
              && tail.header.entries + Reverse(head.header.entries) == s.header.entries
              && (tail.header.flags.contentFilter <==> tail.header.entries != [])
  {
    hide Reverse;
    var h := s.header;
    if size < MarshaledSize(h) { RejoinsEntries(h.entries, |h.entries| - FittingEntries(h, size)); }
  }

  /** Octets of entries and payload. */
  function Content(s: Sample): nat { 16 * |s.header.entries| + |s.payload| }

  lemma SplitContents(s: Sample, size: nat)
    requires Splittable(s, size)
    ensures var (head, tail) := Split(s, size);
            && Content(head) + Content(tail) == Content(s)
            && FixedSize(head.header) == FixedSize(tail.header) == FixedSize(s.header)
            && size <= FixedSize(s.header) + 19 + Content(head)
            && (!s.header.flags.contentFilter ==>
                  size == FixedSize(s.header) + Content(head) && !tail.header.flags.contentFilter)
  {
    SplitFills(s, size);
    SplitParts(s, size);
    hide Reverse;
  }

  /** Every fragment but the last wastes fewer than 16 octets. */
  lemma {:induction false} FragmentsFilled(s: Sample, size: nat, i: nat)
    requires Describes(s) && s.payload != [] && MinFragment(s.header) <= size && i < |Fragments(s, size)| - 1
    ensures Size(Fragments(s, size)[i]) <= size < Size(Fragments(s, size)[i]) + 16
    decreases |s.header.entries| + |s.payload|
  {
    hide Split;
    SplitParts(s, size);
    SplitFills(s, size);
    if i > 0 { FragmentsFilled(Split(s, size).1, size, i - 1); }
  }

  /** No more fragments than the size makes necessary; without filter entries, exactly the quotient rounded up. */
  lemma {:induction false} FragmentCount(s: Sample, size: nat)
    requires Describes(s) && s.payload != [] && MinFragment(s.header) <= size
    ensures var n, fixed := |Fragments(s, size)|, FixedSize(s.header);
            && (n - 1) * (size - fixed - 19) < 16 * |s.header.entries| + |s.payload|
            && (!s.header.flags.contentFilter ==> (n - 1) * (size - fixed) < |s.payload| <= n * (size - fixed))
    decreases |s.header.entries| + |s.payload|
  {
    hide Split;
    if Size(s) > size {
      SplitParts(s, size);
      SplitContents(s, size);
      var (head, tail) := Split(s, size);
      FragmentCount(tail, size);
      var n, fixed := |Fragments(tail, size)|, FixedSize(s.header);
      OneMore(n - 1, size - fixed - 19);
      OneMore(n - 1, size - fixed);
      OneMore(n, size - fixed);
    }
  }

  lemma OneMore(n: int, step: int)
    ensures (n + 1) * step == n * step + step
  {
  }
}
