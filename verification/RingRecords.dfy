/** What reads and searches return in terms of the live records of one id. */
module RingRecords {
  import opened Bytes
  import opened RingFormat
  import opened RingWalk
  import opened RingRead

  // ---- a new record is read last ----

  /** No piece that continues another one of this id has been deleted. */
  ghost predicate SplitsLive(ps: seq<Piece>, id: Byte) {
    forall i :: 0 <= i < |ps| && ps[i].id == id && IsSplit(ps[i].flags) ==> IsLive(ps[i].flags)
  }

  lemma SplitsLiveTail(ps: seq<Piece>, id: Byte, k: nat)
    requires SplitsLive(ps, id) && k <= |ps|
    ensures SplitsLive(ps[k..], id)
  {
    hide IsLive, IsSplit;
  }

  lemma MatchIsFound(ps: seq<Piece>, id: Byte, size: nat)
    requires ps != [] && Matches(ps[0], id)
    ensures ReadFrom(ps, id, size).found
  {
  }

  /** A read leaves a suffix of the log to be read. */
  lemma {:induction false} RestIsSuffix(ps: seq<Piece>, id: Byte, size: nat)
    ensures var rest := ReadFrom(ps, id, size).rest; |rest| <= |ps| && rest == ps[|ps| - |rest|..]
  {
    hide Matches;
    if ps != [] {
      RestIsSuffix(ps[1..], id, size);
      if Matches(ps[0], id) && Continues(ps, id) && |ps[0].data| < size {
        RestIsSuffix(ps[1..], id, size - |ps[0].data|);
      }
    }
  }

  lemma ReadCons(ps: seq<Piece>, id: Byte, size: nat)
    requires ps != []
    ensures ReadFrom(ps, id, size) ==
            if !Matches(ps[0], id) then ReadFrom(ps[1..], id, size)
            else
              var d := Prefix(ps[0].data, size);
              if Continues(ps, id) && |d| < size then
                Reading(true, d + ReadFrom(ps[1..], id, size - |d|).data, ReadFrom(ps[1..], id, size - |d|).rest)
              else Reading(true, d, ps[1..])
  {
  }

  lemma ReadOne(np: Piece, id: Byte, size: nat)
    ensures ReadFrom([np], id, size)
            == if Matches(np, id) then Reading(true, Prefix(np.data, size), []) else Reading(false, [], [])
  {
    assert [np][1..] == [];
  }

  /** The next read joins a record to a deleted continuation and runs on to the end of the log. */
  predicate Dangles(ps: seq<Piece>, id: Byte, size: nat) {
    ps != [] &&
    if !Matches(ps[0], id) then Dangles(ps[1..], id, size)
    else
      var d := Prefix(ps[0].data, size);
      Continues(ps, id) && |d| < size && (!ReadFrom(ps[1..], id, size - |d|).found || Dangles(ps[1..], id, size - |d|))
  }

  lemma {:induction false} DanglingRead(ps: seq<Piece>, id: Byte, size: nat)
    requires Dangles(ps, id, size)
    ensures ReadFrom(ps, id, size).found && ReadFrom(ps, id, size).rest == []
  {
    hide Matches, ReadFrom, Prefix, Continues;
    ReadCons(ps, id, size);
    if !Matches(ps[0], id) {
      DanglingRead(ps[1..], id, size);
    } else {
      var left := size - |Prefix(ps[0].data, size)|;
      if Dangles(ps[1..], id, left) { DanglingRead(ps[1..], id, left); }
    }
  }

  lemma {:induction false} LiveSplitsDoNotDangle(ps: seq<Piece>, id: Byte, size: nat)
    requires SplitsLive(ps, id)
    ensures !Dangles(ps, id, size)
  {
    hide IsLive, IsSplit, Prefix, ReadFrom;
    if ps != [] {
      SplitsLiveTail(ps, id, 1);
      LiveSplitsDoNotDangle(ps[1..], id, size);
      if Matches(ps[0], id) && Continues(ps, id) && |Prefix(ps[0].data, size)| < size {
        MatchIsFound(ps[1..], id, size - |Prefix(ps[0].data, size)|);
        LiveSplitsDoNotDangle(ps[1..], id, size - |Prefix(ps[0].data, size)|);
      }
    }
  }

  /** With further records behind the log, the first of them no continuation: a dangling read goes on into
      them for what is left of its size, any other read that finds something finds the same. */
  lemma {:induction false} ReadBefore(ps: seq<Piece>, qs: seq<Piece>, id: Byte, size: nat) returns (left: nat)
    requires qs != [] && !IsSplit(qs[0].flags) && Matches(qs[0], id)
    ensures var r, s := ReadFrom(ps, id, size), ReadFrom(ps + qs, id, size);
            if Dangles(ps, id, size) then
              0 < left && s == Reading(true, r.data + ReadFrom(qs, id, left).data, ReadFrom(qs, id, left).rest)
            else s == if r.found then r.(rest := r.rest + qs) else ReadFrom(qs, id, size)
  {
    hide ReadFrom, IsSplit, IsLive, Prefix, Matches, Dangles;
    left := size;
    DanglesCons(ps, id, size);
    if ps == [] {
      assert ps + qs == qs;
      ReadNothing(id, size);
    } else {
      assert (ps + qs)[1..] == ps[1..] + qs;
      ReadCons(ps, id, size);
      ReadCons(ps + qs, id, size);
      if !Matches(ps[0], id) {
        left := ReadBefore(ps[1..], qs, id, size);
      } else if Continues(ps, id) {
        var d := Prefix(ps[0].data, size);
        if |d| < size {
          var r := ReadFrom(ps[1..], id, size - |d|);
          left := ReadBefore(ps[1..], qs, id, size - |d|);
          if !r.found {
            left := size - |d|;
            DanglesFinds(ps[1..], id, left);
            MatchIsFound(qs, id, left);
          }
          assert d + (r.data + ReadFrom(qs, id, left).data) == (d + r.data) + ReadFrom(qs, id, left).data;
        }
      } else {
        NotContinued(ps, qs, id);
      }
    }
  }

  lemma DanglesCons(ps: seq<Piece>, id: Byte, size: nat)
    ensures Dangles(ps, id, size) ==
            (ps != [] &&
             if !Matches(ps[0], id) then Dangles(ps[1..], id, size)
             else
               var d := Prefix(ps[0].data, size);
               Continues(ps, id) && |d| < size
                 && (!ReadFrom(ps[1..], id, size - |d|).found || Dangles(ps[1..], id, size - |d|)))
  {
  }

  lemma NotContinued(ps: seq<Piece>, qs: seq<Piece>, id: Byte)
    requires ps != [] && qs != [] && !Continues(ps, id) && !IsSplit(qs[0].flags)
    ensures !Continues(ps + qs, id)
  {
    hide IsSplit;
  }

  /** Some read of the series dangles. */
  predicate SeriesDangles(ps: seq<Piece>, id: Byte, size: nat)
    decreases |ps|
  {
    var r := ReadFrom(ps, id, size);
    r.found && (Dangles(ps, id, size) || SeriesDangles(r.rest, id, size))
  }

  lemma {:induction false} LiveSplitsSeries(ps: seq<Piece>, id: Byte, size: nat)
    requires SplitsLive(ps, id)
    ensures !SeriesDangles(ps, id, size)
    decreases |ps|
  {
    hide ReadFrom, SplitsLive, Dangles;
    var r := ReadFrom(ps, id, size);
    LiveSplitsDoNotDangle(ps, id, size);
    if r.found {
      RestIsSuffix(ps, id, size);
      SplitsLiveTail(ps, id, |ps| - |r.rest|);
      LiveSplitsSeries(r.rest, id, size);
    }
  }

  /** A rewound series of reads returns a new record last, after everything it returned before, just
      when none of its reads dangles; otherwise the new record is glued to an older one. */
  lemma {:induction false} NewRecordIsReadLast(ps: seq<Piece>, np: Piece, id: Byte, size: nat)
    requires !IsSplit(np.flags) && Matches(np, id)
    ensures ReadAll(ps + [np], id, size) == ReadAll(ps, id, size) + [Prefix(np.data, size)] <==>
            !SeriesDangles(ps, id, size)
    ensures SeriesDangles(ps, id, size) ==> |ReadAll(ps + [np], id, size)| == |ReadAll(ps, id, size)|
    decreases |ps|
  {
    hide ReadFrom, IsSplit, Matches, Dangles, Prefix;
    var r := ReadFrom(ps, id, size);
    var left := ReadBefore(ps, [np], id, size);
    ReadNothing(id, size);
    ReadOne(np, id, size);
    ReadOne(np, id, left);
    if r.found {
      if Dangles(ps, id, size) {
        DanglingRead(ps, id, size);
      } else {
        NewRecordIsReadLast(r.rest, np, id, size);
        MoreStep(r.data, ReadAll(r.rest, id, size), ReadAll(r.rest + [np], id, size), [Prefix(np.data, size)]);
      }
    } else {
      DanglesFinds(ps, id, size);
    }
  }

  /** What a series of reads returns for a cut record alone: one record joined from both parts, or two when
      the first part already has the size asked for. */
  lemma CutRead(a: Piece, b: Piece, id: Byte, size: nat)
    requires !IsSplit(a.flags) && Matches(a, id) && a.endsSector && IsSplit(b.flags) && Matches(b, id)
    ensures ReadFrom([a, b], id, size)
         == if |a.data| < size then Reading(true, Prefix(a.data + b.data, size), [])
            else Reading(true, Prefix(a.data, size), [b])
    ensures ReadAll([a, b], id, size)
         == if |a.data| < size then [Prefix(a.data + b.data, size)] else [Prefix(a.data, size), Prefix(b.data, size)]
  {
    hide ReadFrom, IsSplit, IsLive;
    var qs := [a, b];
    assert qs[1..] == [b] && Continues(qs, id);
    ReadCons(qs, id, size);
    ReadOne(b, id, size);
    ReadNothing(id, size);
    if |a.data| < size {
      ReadOne(b, id, size - |a.data|);
      assert a.data + Prefix(b.data, size - |a.data|) == Prefix(a.data + b.data, size);
    } else {
      assert ReadAll([b], id, size) == [Prefix(b.data, size)];
    }
  }

  /** A cut record is read last, in this form, just when no earlier read dangles. */
  lemma {:induction false} CutRecordIsReadLast(ps: seq<Piece>, a: Piece, b: Piece, id: Byte, size: nat)
    requires !IsSplit(a.flags) && Matches(a, id) && a.endsSector && IsSplit(b.flags) && Matches(b, id)
    requires a.data + b.data != []
    ensures ReadAll(ps + [a, b], id, size) == ReadAll(ps, id, size) + ReadAll([a, b], id, size) <==>
            !SeriesDangles(ps, id, size)
    decreases |ps|
  {
    hide ReadFrom, IsSplit, Matches, Dangles;
    var r, qs := ReadFrom(ps, id, size), [a, b];
    var left := ReadBefore(ps, qs, id, size);
    if r.found {
      if Dangles(ps, id, size) {
        CutRead(a, b, id, left);
        assert |ReadFrom(qs, id, left).data| > 0;
        assert ReadAll(ps + qs, id, size)[0] != ReadAll(ps, id, size)[0];
      } else {
        CutRecordIsReadLast(r.rest, a, b, id, size);
        MoreStep(r.data, ReadAll(r.rest, id, size), ReadAll(r.rest + qs, id, size), ReadAll(qs, id, size));
      }
    } else {
      DanglesFinds(ps, id, size);
      MatchIsFound(qs, id, size);
      assert [] + ReadAll(qs, id, size) == ReadAll(qs, id, size);
    }
  }

  lemma MoreStep(d: Text, a: seq<Text>, b: seq<Text>, more: seq<Text>)
    ensures [d] + b == [d] + a + more <==> b == a + more
  {
    assert ([d] + b)[1..] == b && ([d] + a + more)[1..] == a + more;
    assert [d] + a + more == [d] + (a + more);
  }

  lemma DanglesFinds(ps: seq<Piece>, id: Byte, size: nat)
    requires !ReadFrom(ps, id, size).found
    ensures !Dangles(ps, id, size)
  {
    if Dangles(ps, id, size) { DanglingRead(ps, id, size); }
  }

  // ---- records that are whole ----

  /** Records of this id are never cut. */
  ghost predicate Whole(ps: seq<Piece>, id: Byte) {
    forall i :: 0 <= i < |ps| && ps[i].id == id ==> !IsSplit(ps[i].flags)
  }

  lemma WholeTail(ps: seq<Piece>, id: Byte, k: nat)
    requires Whole(ps, id) && k <= |ps|
    ensures Whole(ps[k..], id)
  {
    hide IsSplit;
  }

  /** The live pieces of an id. */
  function Records(ps: seq<Piece>, id: Byte): (rs: seq<Text>) {
    if ps == [] then []
    else (if Matches(ps[0], id) then [ps[0].data] else []) + Records(ps[1..], id)
  }

  function Cut(rs: seq<Text>, size: nat): (cs: seq<Text>)
    ensures |cs| == |rs| && forall i :: 0 <= i < |rs| ==> cs[i] == Prefix(rs[i], size)
  {
    seq(|rs|, i requires 0 <= i < |rs| => Prefix(rs[i], size))
  }

  lemma WholeRead(ps: seq<Piece>, id: Byte, size: nat)
    requires Whole(ps, id) && ps != [] && Matches(ps[0], id)
    ensures ReadFrom(ps, id, size) == Reading(true, Prefix(ps[0].data, size), ps[1..])
  {
    hide IsLive;
  }

  /** A series of reads returns exactly the live records, in order. */
  lemma {:induction false} WholeReads(ps: seq<Piece>, id: Byte, size: nat)
    requires Whole(ps, id)
    ensures ReadAll(ps, id, size) == Cut(Records(ps, id), size)
    decreases |ps|
  {
    hide Matches, Whole;
    if ps == [] {
    } else {
      WholeTail(ps, id, 1);
      WholeReads(ps[1..], id, size);
      if Matches(ps[0], id) {
        WholeRead(ps, id, size);
        hide ReadFrom, Prefix;
      } else {
        assert [] + Records(ps[1..], id) == Records(ps[1..], id);
      }
    }
  }

  // ---- searching ----

  /** A live record of this id that starts with the key. */
  predicate Hit(p: Piece, id: Byte, key: Text) { Matches(p, id) && key <= p.data }

  /** No live record of this id ends inside the key while agreeing with it. */
  ghost predicate Decided(ps: seq<Piece>, id: Byte, key: Text) {
    forall i :: 0 <= i < |ps| && Matches(ps[i], id) ==> !(ps[i].data < key)
  }

  lemma DecidedTail(ps: seq<Piece>, id: Byte, key: Text, k: nat)
    requires Decided(ps, id, key) && k <= |ps|
    ensures Decided(ps[k..], id, key)
  {
    hide Matches;
  }

  function FirstHit(ps: seq<Piece>, id: Byte, key: Text): (i: nat)
    ensures i <= |ps| && (i < |ps| ==> Hit(ps[i], id, key)) && forall j :: 0 <= j < i ==> !Hit(ps[j], id, key)
  {
    if ps == [] || Hit(ps[0], id, key) then 0 else 1 + FirstHit(ps[1..], id, key)
  }

  /** One comparison, whatever stood in the scratch buffer. */
  lemma CompareOne(d: Text, key: Text, scratch: Text)
    requires |scratch| >= |key| && !(d < key)
    ensures var c := Prefix(d, |key|); (c + scratch[|c|..])[..|key|] == key <==> key <= d
  {
    var c := Prefix(d, |key|);
    var now := c + scratch[|c|..];
    if |d| >= |key| {
      assert now[..|key|] == c == d[..|key|];
    } else {
      assert now[..|key|][..|d|] == d;
    }
  }

  /** The search finds the first hit, and stops right behind it. */
  lemma {:induction false} FindIsFirst(ps: seq<Piece>, id: Byte, key: Text, scratch: Text)
    requires Whole(ps, id) && Decided(ps, id, key) && |scratch| >= |key|
    ensures var i, s := FirstHit(ps, id, key), FindFrom(ps, id, key, scratch);
            if i == |ps| then s.NotFound? else s.Found? && s.at == ps[i..] && s.rest == ps[i + 1..]
    decreases |ps|
  {
    hide Matches, Whole, ReadFrom, FindFrom, Decided;
    FindStep(ps, id, key, scratch);
    if ps != [] {
      WholeTail(ps, id, 1);
      DecidedTail(ps, id, key, 1);
      if Matches(ps[0], id) {
        WholeRead(ps, id, |key|);
        DecidedFirst(ps, id, key);
        CompareOne(ps[0].data, key, scratch);
        var c := Prefix(ps[0].data, |key|);
        var now := c + scratch[|c|..];
        if Hit(ps[0], id, key) {
          assert ps[0..] == ps;
        } else {
          FindIsFirst(ps[1..], id, key, now);
        }
      } else {
        FindIsFirst(ps[1..], id, key, scratch);
      }
    }
  }

  lemma DecidedFirst(ps: seq<Piece>, id: Byte, key: Text)
    requires Decided(ps, id, key) && ps != [] && Matches(ps[0], id)
    ensures !(ps[0].data < key)
  {
  }
}
