/** The cyclic iterator over the fields of a message. */
module PbIter {
  import opened PbMessage
  import opened PbDecoding
  import opened PbRequired
  import opened PbRoundTrip

  /** The entry after i in a ring of n. */
  function After(i: nat, n: nat): (r: nat)
    requires i < n
    ensures r < n
  {
    if i + 1 < n then i + 1 else 0
  }

  /** How many steps around a ring of n lead from entry i to entry j. */
  function Steps(i: nat, j: nat, n: nat): (k: nat)
    requires i < n && j < n
    ensures k < n
  {
    if j >= i then j - i else j + n - i
  }

  /** Walks a field array; pos is the current entry and stands for the pointers to its data as well. In an empty array it
      rests on the terminator. */
  class FieldIter {
    const start: seq<Field>
    var pos: nat
    var requiredFieldIndex: nat

    ghost predicate Valid()
      reads this
    {
      && (if |start| == 0 then pos == 0 else pos < |start|)
      && requiredFieldIndex == RequiredBefore(start, pos)
    }

    constructor (fields: seq<Field>)
      ensures Valid() && start == fields && pos == 0
    {
      start := fields;
      pos := 0;
      requiredFieldIndex := 0;
    }

    method Begin() returns (more: bool)
      modifies this
      ensures Valid() && pos == 0 && (more <==> |start| > 0)
    {
      pos := 0;
      requiredFieldIndex := 0;
      more := |start| != 0;
    }

    /** On to the next entry; from the last one back to the first, and then false. */
    method Next() returns (more: bool)
      requires Valid()
      modifies this
      ensures Valid()
      ensures more <==> old(pos) + 1 < |start|
      ensures |start| == 0 ==> pos == old(pos)
      ensures |start| > 0 ==> pos == After(old(pos), |start|)
    {
      if |start| == 0 {
        return false;
      }
      var prev := start[pos];
      pos := pos + 1;
      if pos == |start| {
        var _ := Begin();
        return false;
      }
      if prev.htype.Required? {
        requiredFieldIndex := requiredFieldIndex + 1;
      }
      return true;
    }

    /** The tag of the current entry; the terminator has tag zero. */
    function Tag(): nat
      reads this
      requires Valid()
    {
      if |start| == 0 then 0 else start[pos].tag
    }

    /** Whether none of the entries less than k steps from the first has the tag. */
    ghost predicate Passed(first: nat, k: nat, tag: nat)
      requires first < |start|
    {
      forall j :: 0 <= j < |start| && Steps(first, j, |start|) < k ==> start[j].tag != tag
    }

    /** Searches around the ring from the current entry. The steps taken are at most one round, so no entry is looked at
        twice; the search stops at the first entry with the tag, or where it began. */
    method Find(tag: nat) returns (found: bool, ghost steps: nat)
      requires Valid()
      modifies this
      ensures Valid()
      ensures |start| == 0 ==> (found <==> tag == 0) && pos == old(pos)
      ensures |start| > 0 ==> steps <= |start| && Passed(old(pos), steps, tag)
      ensures |start| > 0 && found ==> steps == Steps(old(pos), pos, |start|) && start[pos].tag == tag
      ensures |start| > 0 && !found ==> steps == |start| && pos == old(pos)
    {
      hide RequiredBefore;
      var first := pos;
      steps := 0;
      if Tag() == tag {
        return true, steps;
      }
      var _ := Next();
      steps := 1;
      while pos != first
        invariant Valid()
        invariant |start| == 0 ==> pos == first
        invariant |start| > 0 ==> first < |start| && 1 <= steps <= |start| && Passed(first, steps, tag)
        invariant |start| > 0 ==> if pos == first then steps == |start| else steps == Steps(first, pos, |start|)
        decreases |start| - steps
      {
        if Tag() == tag {
          return true, steps;
        }
        var _ := Next();
        steps := steps + 1;
      }
      return false, steps;
    }

    /** From every starting position the search agrees with a linear search of the array. */
    lemma FindIsLinearSearch(first: nat, stop: nat, found: bool, steps: nat, tag: nat)
      requires first < |start| && stop < |start| && DistinctTags(start) && Passed(first, steps, tag)
      requires if found then steps == Steps(first, stop, |start|) && start[stop].tag == tag else steps == |start|
      ensures PbDecoding.Find(start, tag) == if found then stop else |start|
    {
      var i := PbDecoding.Find(start, tag);
      if i < |start| {
        assert found && start[i].tag == start[stop].tag;
      }
    }
  }
}
