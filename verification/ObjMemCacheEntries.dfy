/** Which entries an operation of the object cache leaves in its list. */
module ObjMemCacheEntries {
  import opened ObjMemCache

  /** The entries of other names, in their order. */
  function OtherEntries(l: seq<Entry>, key: string): seq<Entry> {
    if l == [] then []
    else (if l[0].name == key then [] else [l[0]]) + OtherEntries(l[1..], key)
  }

  lemma {:induction false} NoneOfName(l: seq<Entry>, key: string)
    requires forall i :: 0 <= i < |l| ==> l[i].name != key
    ensures OtherEntries(l, key) == l
  {
    if l != [] {
      NoneOfName(l[1..], key);
      assert l == [l[0]] + l[1..];
    }
  }

  /** In a list without repeated names, `remove` takes out the entry of that name and nothing else, and `get`
      puts it behind all the others. */
  lemma {:induction false} RemovesExactly(l: seq<Entry>, key: string)
    requires forall i, j :: 0 <= i < j < |l| ==> l[i].name != l[j].name
    ensures Without(l, key) == OtherEntries(l, key)
    ensures Touched(l, key) == OtherEntries(l, key) + if Has(l, key) then [l[Position(l, key)]] else []
  {
    if l != [] {
      if l[0].name == key {
        NoneOfName(l[1..], key);
        assert Position(l, key) == 0 && l[..0] + l[1..] == l[1..];
      } else {
        RemovesExactly(l[1..], key);
        assert Position(l, key) == 1 + Position(l[1..], key);
        TailWithout(l, key);
      }
    }
  }

  lemma CutTail(l: seq<Entry>, tail: seq<Entry>, p: nat)
    requires l != [] && tail == l[1..] && p < |tail|
    ensures l[..p + 1] + l[p + 2..] == [l[0]] + (tail[..p] + tail[p + 1..])
  {
    assert l[..p + 1] == [l[0]] + tail[..p];
    assert l[p + 2..] == tail[p + 1..];
  }

  lemma TailWithout(l: seq<Entry>, key: string)
    requires l != [] && l[0].name != key && Position(l, key) == 1 + Position(l[1..], key)
    ensures Without(l, key) == [l[0]] + Without(l[1..], key)
  {
    var p := Position(l[1..], key);
    if p < |l[1..]| {
      CutTail(l, l[1..], p);
    } else {
      assert l == [l[0]] + l[1..];
    }
  }

  /** What adding these entries one after another leaves, with any settings. */
  function AddedAll(entries: seq<Entry>, threshold: nat, fraction: real): seq<Entry>
    requires fraction >= 0.0
  {
    if entries == [] then []
    else
      var n := |entries| - 1;
      Room(AddedAll(entries[..n], threshold, fraction), threshold, fraction) + [entries[n]]
  }

  /** A threshold of zero means that there is none: adding never purges. */
  lemma {:induction false} NoThresholdKeepsAll(entries: seq<Entry>, fraction: real)
    requires fraction >= 0.0
    ensures AddedAll(entries, 0, fraction) == entries
  {
    if entries != [] {
      var n := |entries| - 1;
      NoThresholdKeepsAll(entries[..n], fraction);
      assert entries[..n] + [entries[n]] == entries;
    }
  }
}
