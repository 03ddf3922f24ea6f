/** Parameters that come in any order: what the multimap that they are read into iterates over. */
module QueryOrder {
  import opened Options
  import opened Text
  import opened QueryCodec
  import opened QueryForms

  // ---- The order of keys ----

  lemma {:induction false} LessIrreflexive(a: string)
    ensures !Less(a, a)
  {
    if a != "" {
      LessIrreflexive(a[1..]);
    }
  }

  lemma {:induction false} LessTransitive(a: string, b: string, c: string)
    requires Less(a, b) && Less(b, c)
    ensures Less(a, c)
  {
    if a != "" && a[0] == b[0] == c[0] {
      LessTransitive(a[1..], b[1..], c[1..]);
    }
  }

  lemma {:induction false} LessTotal(a: string, b: string)
    ensures Less(a, b) || Less(b, a) || a == b
  {
    if a != "" && b != "" && a[0] == b[0] {
      LessTotal(a[1..], b[1..]);
      assert a == [a[0]] + a[1..] && b == [b[0]] + b[1..];
    }
  }

  /** No key is less than one in front of it. */
  predicate Ascending(ps: seq<Param>) {
    forall i, j :: 0 <= i < j < |ps| ==> !Less(ps[j].key, ps[i].key)
  }

  /** `p` goes to place `k`: behind the keys that are not greater, in front of the ones that are. */
  lemma {:induction false} EmplaceAt(ps: seq<Param>, p: Param) returns (k: nat)
    ensures k <= |ps| && Emplace(ps, p) == ps[..k] + [p] + ps[k..]
    ensures forall i :: 0 <= i < k ==> !Less(p.key, ps[i].key)
    ensures k < |ps| ==> Less(p.key, ps[k].key)
  {
    if ps == [] {
      k := 0;
    } else if Less(p.key, ps[0].key) {
      k := 0;
      assert ps[0..] == ps && [p] + ps == [] + [p] + ps;
    } else {
      var m := EmplaceAt(ps[1..], p);
      k := m + 1;
      assert [ps[0]] + (ps[1..][..m] + [p] + ps[1..][m..]) == ps[..k] + [p] + ps[k..];
    }
  }

  lemma EmplaceAscending(ps: seq<Param>, p: Param)
    requires Ascending(ps)
    ensures Ascending(Emplace(ps, p))
  {
    var k := EmplaceAt(ps, p);
    forall i | k <= i < |ps|
      ensures !Less(ps[i].key, p.key)
    {
      if Less(ps[i].key, p.key) {
        LessTransitive(ps[i].key, p.key, ps[k].key);
        LessIrreflexive(ps[k].key);
      }
    }
    PlacedAscending(ps, p, k);
  }

  lemma PlacedAscending(ps: seq<Param>, p: Param, k: nat)
    requires Ascending(ps) && k <= |ps|
    requires forall i :: 0 <= i < k ==> !Less(p.key, ps[i].key)
    requires forall i :: k <= i < |ps| ==> !Less(ps[i].key, p.key)
    ensures Ascending(ps[..k] + [p] + ps[k..])
  {
    var r := ps[..k] + [p] + ps[k..];
    forall i, j | 0 <= i < j < |r|
      ensures !Less(r[j].key, r[i].key)
    {
      assert r[i] == if i < k then ps[i] else if i == k then p else ps[i - 1];
      assert r[j] == if j < k then ps[j] else if j == k then p else ps[j - 1];
    }
  }

  /** The values under a key, in order. */
  function Under(ps: seq<Param>, key: string): seq<string> {
    if ps == [] then [] else (if ps[0].key == key then [ps[0].value] else []) + Under(ps[1..], key)
  }

  lemma {:induction false} UnderJoin(a: seq<Param>, b: seq<Param>, key: string)
    ensures Under(a + b, key) == Under(a, key) + Under(b, key)
  {
    if a == [] {
      assert a + b == b;
    } else {
      UnderJoin(a[1..], b, key);
      assert (a + b)[1..] == a[1..] + b && (a + b)[0] == a[0];
      JoinedLater(if a[0].key == key then [a[0].value] else [], Under(a[1..], key), Under(b, key));
    }
  }

  lemma {:induction false} UnderNone(ps: seq<Param>, key: string)
    requires forall i :: 0 <= i < |ps| ==> ps[i].key != key
    ensures Under(ps, key) == []
  {
    if ps != [] {
      UnderNone(ps[1..], key);
    }
  }

  /** A parameter becomes the last under its key, and the other keys are as before. */
  lemma EmplaceUnder(ps: seq<Param>, p: Param, key: string)
    requires Ascending(ps)
    ensures Under(Emplace(ps, p), key) == Under(ps, key) + if p.key == key then [p.value] else []
  {
    var k := EmplaceAt(ps, p);
    var front, back := ps[..k], ps[k..];
    assert ps == front + back;
    UnderJoin(front, back, key);
    UnderJoin(front + [p], back, key);
    UnderJoin(front, [p], key);
    if p.key == key {
      forall i | 0 <= i < |back|
        ensures back[i].key != key
      {
        LessIrreflexive(key);
        assert back[i] == ps[k + i];
      }
      UnderNone(back, key);
    }
  }

  // ---- Reading ----

  /** Whatever the text, the parameters are in the order of their keys. */
  lemma {:induction false} ReadAscending(pieces: seq<string>, cache: set<string>, ps: seq<Param>)
    requires Ascending(ps)
    ensures Ascending(ReadPieces(pieces, cache, ps))
    decreases |pieces|
  {
    if pieces != [] {
      if pieces[0] in cache {
        ReadAscending(pieces[1..], cache, ps);
      } else {
        match ReadParam(pieces[0])
        case None => ReadAscending(pieces[1..], cache + {pieces[0]}, ps);
        case Some(p) =>
          EmplaceAscending(ps, p);
          ReadAscending(pieces[1..], cache + {pieces[0]}, Emplace(ps, p));
      }
    }
  }

  lemma ParsedAscending(s: string)
    ensures Ascending(ParseQuery(s))
  {
    ReadAscending(Pieces(s, '&'), {}, []);
  }

  lemma ReadAsTail(pieces: seq<string>, ps: seq<Param>)
    requires ReadAs(pieces, ps) && ps != []
    ensures ReadAs(pieces[1..], ps[1..]) && forall k :: 0 <= k < |pieces[1..]| ==> pieces[1..][k] != pieces[0]
  {
    forall k | 0 <= k < |ps[1..]|
      ensures ReadParam(pieces[1..][k]) == Some(ps[1..][k]) && pieces[1..][k] != pieces[0]
    {
      assert pieces[1..][k] == pieces[k + 1] && ps[1..][k] == ps[k + 1];
    }
    forall k, l | 0 <= k < l < |ps[1..]|
      ensures pieces[1..][k] != pieces[1..][l]
    {
      assert pieces[1..][k] == pieces[k + 1] && pieces[1..][l] == pieces[l + 1];
    }
  }

  lemma ReadFirst(pieces: seq<string>, cache: set<string>, before: seq<Param>, p: Param)
    requires pieces != [] && pieces[0] !in cache && ReadParam(pieces[0]) == Some(p)
    ensures ReadPieces(pieces, cache, before) == ReadPieces(pieces[1..], cache + {pieces[0]}, Emplace(before, p))
  {
  }

  lemma UnderFirst(ps: seq<Param>, before: seq<string>, key: string)
    requires ps != []
    ensures before + (if ps[0].key == key then [ps[0].value] else []) + Under(ps[1..], key) == before + Under(ps, key)
  {
  }

  lemma {:induction false} ReadUnder(pieces: seq<string>, ps: seq<Param>, cache: set<string>, before: seq<Param>,
                                     key: string)
    requires ReadAs(pieces, ps) && Ascending(before) && forall k :: 0 <= k < |pieces| ==> pieces[k] !in cache
    ensures Under(ReadPieces(pieces, cache, before), key) == Under(before, key) + Under(ps, key)
    decreases |pieces|
  {
    if pieces == [] {
      assert Under(before, key) + [] == Under(before, key);
    } else {
      var next := Emplace(before, ps[0]);
      EmplaceAscending(before, ps[0]);
      EmplaceUnder(before, ps[0], key);
      ReadAsTail(pieces, ps);
      ReadFirst(pieces, cache, before, ps[0]);
      ReadUnder(pieces[1..], ps[1..], cache + {pieces[0]}, next, key);
      UnderFirst(ps, Under(before, key), key);
    }
  }

  /** Distinct parameters with plain keys, written in any order, come back in the order of their keys, with
      the values of each key in the order in which they were written. */
  lemma AnyOrderIsRead(ps: seq<Param>, bare: seq<bool>, key: string)
    requires Distinct(ps) && PlainKeys(ps) && ByteValues(ps) && |bare| == |ps|
    requires forall k :: 0 <= k < |ps| && bare[k] ==> MayBeBare(ps[k])
    ensures Ascending(ParseQuery(QueryAs(ps, bare)))
    ensures Under(ParseQuery(QueryAs(ps, bare)), key) == Under(ps, key)
  {
    ParsedAscending(QueryAs(ps, bare));
    QueryPiecesAs(ps, bare);
    PiecesReadAs(ps, bare);
    ReadUnder(PiecesAs(ps, bare), ps, {}, [], key);
    assert Under([], key) + Under(ps, key) == Under(ps, key);
  }
}
