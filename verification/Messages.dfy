/** system/kernel/messages.ep: the message board, a registry of channels by name. */
module Messages {

  datatype Entry = Entry(name: string, channel_: int)

  /** What the board says: the channel of each name. */
  function Meaning(entries: seq<Entry>): map<string, int> {
    if entries == [] then map[]
    else Meaning(entries[..|entries| - 1])[entries[|entries| - 1].name := entries[|entries| - 1].channel_]
  }

  predicate Distinct(entries: seq<Entry>) {
    forall i, j :: 0 <= i < j < |entries| ==> entries[i].name != entries[j].name
  }

  lemma {:induction false} MeaningAt(entries: seq<Entry>, name: string)
    requires Distinct(entries)
    ensures name in Meaning(entries) <==> exists i :: 0 <= i < |entries| && entries[i].name == name
    ensures forall i :: 0 <= i < |entries| && entries[i].name == name ==> Meaning(entries)[name] == entries[i].channel_
  {
    if entries != [] {
      var front := entries[..|entries| - 1];
      MeaningAt(front, name);
      assert forall i :: 0 <= i < |front| ==> front[i] == entries[i];
      if name in Meaning(front) && entries[|entries| - 1].name != name {
        var i :| 0 <= i < |front| && front[i].name == name;
        assert entries[i].name == name;
      }
    }
  }

  class Board {
    var entries: seq<Entry>

    ghost predicate Valid() reads this { Distinct(entries) }

    constructor ()
      ensures Valid() && Meaning(entries) == map[]
    {
      entries := [];
    }

    method Find(name: string) returns (spot: int)
      ensures -1 <= spot < |entries|
      ensures spot >= 0 ==> entries[spot].name == name
      ensures spot == -1 ==> forall i :: 0 <= i < |entries| ==> entries[i].name != name
    {
      var i := 0;
      while i < |entries|
        invariant 0 <= i <= |entries|
        invariant forall k :: 0 <= k < i ==> entries[k].name != name
      {
        if entries[i].name == name { return i; }
        i := i + 1;
      }
      return -1;
    }

    /** A name already there is given the new channel, in its old spot. */
    method Register(name: string, theChannel: int)
      requires Valid()
      modifies this
      ensures Valid() && Meaning(entries) == Meaning(old(entries))[name := theChannel]
      ensures |entries| == |old(entries)| + (if name in Meaning(old(entries)) then 0 else 1)
    {
      var spot := Find(name);
      ghost var before := entries;
      if spot >= 0 {
        entries := entries[spot := Entry(name, theChannel)];
      } else {
        entries := entries + [Entry(name, theChannel)];
      }
      MeaningAt(before, name);
      forall n
        ensures n in Meaning(entries) <==> n in Meaning(before)[name := theChannel]
        ensures n in Meaning(entries) ==> Meaning(entries)[n] == Meaning(before)[name := theChannel][n]
      {
        MeaningAt(before, n);
        MeaningAt(entries, n);
        if k :| 0 <= k < |before| && before[k].name == n { assert entries[k].name == n; }
        if spot >= 0 { assert entries[spot].name == name; }
      }
    }

    /** The channel under a name, or 0. */
    method ChannelOf(name: string) returns (c: int)
      requires Valid()
      ensures c == if name in Meaning(entries) then Meaning(entries)[name] else 0
    {
      MeaningAt(entries, name);
      var spot := Find(name);
      return if spot < 0 then 0 else entries[spot].channel_;
    }
  }
}
