/** A queue without duplicates, kept beside a set of its members. */
module UniDeques {
  import opened Prelude

  ghost predicate NoDuplicates<T>(s: seq<T>) {
    forall i, j :: 0 <= i < j < |s| ==> s[i] != s[j]
  }

  function PushUnique<T(==)>(q: seq<T>, value: T): seq<T> {
    if value in q then q else q + [value]
  }

  class UniDeque<T(==,!new)> {
    var queue: seq<T>
    var members: set<T>

    /** The queue has no duplicates and the set holds exactly its elements. */
    ghost predicate Valid()
      reads this
    {
      && NoDuplicates(queue)
      && (forall v :: v in members <==> v in queue)
    }

    constructor ()
      ensures Valid() && queue == []
    {
      queue, members := [], {};
    }

    method Push(value: T) returns (isNew: bool)
      requires Valid()
      modifies this
      ensures Valid()
      ensures queue == PushUnique(old(queue), value)
      ensures isNew == (value !in old(queue))
    {
      isNew := value !in members;
      members := members + {value};
      if isNew {
        queue := queue + [value];
      }
    }

    method DrainFirst(n: nat) returns (drained: seq<T>)
      requires Valid()
      modifies this
      ensures Valid()
      ensures drained == old(queue)[..Min(n, |old(queue)|)]
      ensures queue == old(queue)[Min(n, |old(queue)|)..]
    {
      var count := Min(n, |queue|);
      drained := [];
      ghost var all := queue;
      while |drained| < count
        invariant |drained| <= count
        invariant drained == all[..|drained|] && queue == all[|drained|..]
        invariant forall v :: v in members <==> v in queue
      {
        var item := queue[0];
        assert queue[1..] == all[|drained| + 1..];
        assert item !in queue[1..];
        assert forall v :: v in queue <==> v == item || v in queue[1..];
        queue := queue[1..];
        members := members - {item};
        drained := drained + [item];
      }
    }

    predicate Contains(value: T)
      requires Valid()
      reads this
      ensures Contains(value) <==> value in queue
    {
      value in members
    }
  }
}
