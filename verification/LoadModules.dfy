/** Load modules from the writer's side: what a well-formed module consists of and
    how it is laid out in a file.  The loader accepts exactly the well-formed modules,
    and loads each to its program. */
module LoadModules {
  import opened Words
  import opened LoadFormat
  import opened LoadFacts

  // ---------- sub-records ----------

  /** A sub-record: one the loader skips; a relocation list (type 2); a dictionary
      (type 3), which announces text and whose relocation list may reach beyond it;
      the last record (type 14); or program text.  Heads are the 15 bytes after the
      type. */
  datatype Sub =
    | Skipped(kind: Byte, rest: Bytes)
    | RldList(head: Bytes, entries: seq<Entry>)
    | Dictionary(rest: Bytes, entries: seq<Entry>)
    | Closing(head: Bytes, entries: seq<Entry>)
    | Program(text: Bytes)

  function Written(s: Sub): Bytes {
    match s
    case Skipped(kind, rest) => [kind] + rest
    case RldList(head, es) => [2] + head + Encode(es)
    case Dictionary(rest, _) => [3] + rest
    case Closing(head, es) => [0x0e] + head + Encode(es)
    case Program(text) => text
  }

  predicate Proper(s: Sub, rlad: int) {
    && 1 <= |Written(s)| < 0x8000
    && match s
       case Skipped(kind, _) => kind != 2 && kind != 3 && kind != 0x0e
       case RldList(head, es) => |head| == 15 && WellFormed(es, false, rlad)
       case Dictionary(_, es) => WellFormed(es, false, rlad)
       case Closing(head, es) => |head| == 15 && WellFormed(es, false, rlad)
       case Program(_) => true
  }

  /** The list of a dictionary at `at` stands 16 bytes behind it, and its length in
      the dictionary's seventh and eighth byte, whatever the dictionary's own length. */
  predicate Follows(b: Bytes, at: nat, es: seq<Entry>) {
    && at + 8 <= |b| && Half(b, at + 6) == |Encode(es)|
    && (es == [] || (at + 16 + |Encode(es)| <= |b| && b[at + 16..at + 16 + |Encode(es)|] == Encode(es)))
  }

  predicate Stands(b: Bytes, at: nat, s: Sub) {
    && at + |Written(s)| <= |b| && b[at..at + |Written(s)|] == Written(s)
    && (s.Dictionary? ==> Follows(b, at, s.entries))
  }

  predicate Announces(last: int) {
    last == 1 || last == 3 || last == 0x0d
  }

  function Kind(s: Sub): int {
    match s
    case Skipped(kind, _) => kind
    case RldList(_, _) => 2
    case Dictionary(_, _) => 3
    case Closing(_, _) => 0x0e
    case Program(_) => -1
  }

  /** The sub-record that ends the module: a closing one, or the text that a
      sub-record of type 13 announced. */
  predicate Ends(s: Sub, last: int) {
    s.Closing? || (s.Program? && last == 0x0d)
  }

  function Asks(s: Sub, rlad: int): seq<Item>
    requires Proper(s, rlad)
  {
    match s
    case Skipped(_, _) => []
    case Program(text) => [Text(text)]
    case RldList(_, es) => Relocations(Meaning(es, false, rlad))
    case Dictionary(_, es) => Relocations(Meaning(es, false, rlad))
    case Closing(_, es) => Relocations(Meaning(es, false, rlad))
  }

  function After(s: Sub, last: int): Verdict {
    if Ends(s, last) then Done else GoOn(Kind(s))
  }

  lemma ListAt(b: Bytes, s: nat, n: nat, first: Byte, head: Bytes, es: seq<Entry>, rlad: int)
    requires s + n <= |b| && |head| == 15 && WellFormed(es, false, rlad)
    requires b[s..s + n] == [first] + head + Encode(es)
    ensures n == 16 + |Encode(es)| && b[s] == first
    ensures Rld(b, s + 16, s + n, false, rlad) == RldTrace(Meaning(es, false, rlad), RldOk)
  {
    hide Rld, Encode, WellFormed, Meaning;
    var p, list := b[s..s + n], Encode(es);
    assert p[..16] == [first] + head && p[16..] == list;
    assert b[s] == p[..16][0];
    assert b[s + 16..s + n] == p[16..];
    RldReads(b, s + 16, s + n, false, rlad, es);
  }

  /** Reading a sub-record gives what its writer asked for. */
  lemma SubReads(b: Bytes, at: nat, last: int, rlad: int, s: Sub)
    requires Stands(b, at, s) && Proper(s, rlad) && (s.Program? <==> Announces(last))
    ensures ReadChunk(b, at, |Written(s)|, last, rlad) == Chunk(Asks(s, rlad), After(s, last))
  {
    hide Rld, Encode, WellFormed, Meaning, Half, Follows, Relocations, ReadChunk;
    var n := |Written(s)|;
    assert b[at] == b[at..at + n][0];
    match s
    case Program(text) =>
      ChunkIs(b, at, n, last, rlad);
    case Skipped(kind, rest) =>
      ChunkIs(b, at, n, last, rlad);
    case RldList(head, es) =>
      ListAt(b, at, n, 2, head, es, rlad);
      ChunkIs(b, at, n, last, rlad);
    case Closing(head, es) =>
      ListAt(b, at, n, 0x0e, head, es, rlad);
      ChunkIs(b, at, n, last, rlad);
    case Dictionary(rest, es) =>
      FollowsReads(b, at, es, rlad);
      DictionaryIs(b, at, n, last, rlad);
  }

  /** Reading a sub-record of any type but 3. */
  lemma ChunkIs(b: Bytes, at: nat, n: nat, last: int, rlad: int)
    requires 1 <= n && at + n <= |b|
    ensures Announces(last) ==>
              ReadChunk(b, at, n, last, rlad) == Chunk([Text(b[at..at + n])], if last == 0x0d then Done else GoOn(-1))
    ensures !Announces(last) && b[at] != 2 && b[at] != 3 && b[at] != 0x0e ==>
              ReadChunk(b, at, n, last, rlad) == Chunk([], GoOn(b[at]))
    ensures var tr := Rld(b, at + 16, at + n, false, rlad);
            !Announces(last) && (b[at] == 2 || b[at] == 0x0e) && tr.end == RldOk ==>
              ReadChunk(b, at, n, last, rlad) == Chunk(Relocations(tr.fixes), if b[at] == 2 then GoOn(2) else Done)
  {
    hide Rld, Half, Relocations;
  }

  lemma DictionaryIs(b: Bytes, at: nat, n: nat, last: int, rlad: int)
    requires 1 <= n && at + n <= |b| && at + 8 <= |b| && b[at] == 3 && !Announces(last)
    ensures var tr := Rld(b, at + 16, at + Half(b, at + 6) + 16, false, rlad);
            tr.end == RldOk ==> ReadChunk(b, at, n, last, rlad) == Chunk(Relocations(tr.fixes), GoOn(3))
  {
    hide Rld, Half, Relocations;
  }

  lemma FollowsReads(b: Bytes, at: nat, es: seq<Entry>, rlad: int)
    requires WellFormed(es, false, rlad) && Follows(b, at, es)
    ensures at + 8 <= |b|
    ensures Rld(b, at + 16, at + Half(b, at + 6) + 16, false, rlad) == RldTrace(Meaning(es, false, rlad), RldOk)
  {
    if es != [] {
      hide Rld, Encode, WellFormed, Meaning;
      RldReads(b, at + 16, at + 16 + |Encode(es)|, false, rlad, es);
    }
  }

  /** A list that is accepted ends behind its start, and unless empty in the buffer. */
  lemma {:induction false} AcceptedInside(b: Bytes, r: nat, fin: int, cont: bool, rlad: int)
    requires Rld(b, r, fin, cont, rlad).end == RldOk
    ensures r == fin || r < fin <= |b|
    decreases fin - r
  {
    if r != fin {
      var e := ReadEntry(b, r, fin, cont, rlad);
      AcceptedInside(b, e.next, fin, e.cont, rlad);
    }
  }

  /** A sub-record that does not stop the loader was written by a proper writer. */
  lemma SubWritten(b: Bytes, at: nat, n: nat, last: int, rlad: int) returns (s: Sub)
    requires 1 <= n < 0x8000 && at + n <= |b|
    requires var v := ReadChunk(b, at, n, last, rlad).verdict; v.GoOn? || v.Done?
    ensures Proper(s, rlad) && |Written(s)| == n && Stands(b, at, s) && (s.Program? <==> Announces(last))
  {
    hide Rld, Encode, WellFormed, Half, Follows, ReadChunk;
    var p := b[at..at + n];
    assert p[0] == b[at];
    if Announces(last) {
      return Program(p);
    }
    AcceptedList(b, at, n, last, rlad);
    if b[at] == 2 {
      var head, es := ListWritten(b, at, n, 2, rlad);
      s := RldList(head, es);
    } else if b[at] == 0x0e {
      var head, es := ListWritten(b, at, n, 0x0e, rlad);
      s := Closing(head, es);
    } else if b[at] == 3 {
      var es := FollowsWritten(b, at, rlad);
      s := Dictionary(p[1..], es);
      assert p == [3] + p[1..];
    } else {
      s := Skipped(b[at], p[1..]);
      assert p == [b[at]] + p[1..];
    }
  }

  lemma AcceptedList(b: Bytes, at: nat, n: nat, last: int, rlad: int)
    requires 1 <= n && at + n <= |b| && !Announces(last)
    requires var v := ReadChunk(b, at, n, last, rlad).verdict; v.GoOn? || v.Done?
    ensures b[at] == 2 || b[at] == 0x0e ==> Rld(b, at + 16, at + n, false, rlad).end == RldOk
    ensures b[at] == 3 ==> at + 8 <= |b| && Rld(b, at + 16, at + Half(b, at + 6) + 16, false, rlad).end == RldOk
  {
    hide Rld, Half, Relocations;
  }

  lemma ListWritten(b: Bytes, at: nat, n: nat, first: Byte, rlad: int) returns (head: Bytes, es: seq<Entry>)
    requires 1 <= n && at + n <= |b| && b[at] == first && Rld(b, at + 16, at + n, false, rlad).end == RldOk
    ensures |head| == 15 && WellFormed(es, false, rlad) && b[at..at + n] == [first] + head + Encode(es)
  {
    hide Rld, Encode, WellFormed;
    AcceptedInside(b, at + 16, at + n, false, rlad);
    es := RldWritten(b, at + 16, at + n, false, rlad);
    head := b[at + 1..at + 16];
    assert b[at..at + n] == [b[at]] + b[at + 1..at + 16] + b[at + 16..at + n];
  }

  lemma FollowsWritten(b: Bytes, at: nat, rlad: int) returns (es: seq<Entry>)
    requires at + 8 <= |b| && Rld(b, at + 16, at + Half(b, at + 6) + 16, false, rlad).end == RldOk
    ensures WellFormed(es, false, rlad) && Follows(b, at, es)
  {
    var fin := at + Half(b, at + 6) + 16;
    AcceptedInside(b, at + 16, fin, false, rlad);
    if fin == at + 16 {
      es := [];
    } else {
      es := RldWritten(b, at + 16, fin, false, rlad);
      assert |b[at + 16..fin]| == fin - at - 16;
    }
  }

  // ---------- records ----------

  predicate AllProper(subs: seq<Sub>, rlad: int) {
    forall s <- subs :: Proper(s, rlad)
  }

  /** The `left` bytes at `q` are the rest of a record, holding `subs` behind a
      sub-record of type `last`: each behind its length, with 10 bytes of any kind
      between two.  Text stands exactly where it was announced.  A record ends with
      its last sub-record, or with a length of 0 and anything behind it; the end of
      the module leaves anything behind it too. */
  predicate Lays(b: Bytes, q: nat, left: nat, subs: seq<Sub>, last: int)
    decreases |subs|
  {
    && 2 <= left && q + left <= |b|
    && if subs == [] then Half(b, q) == 0
       else
         var n := |Written(subs[0])|;
         && Half(b, q) == n && 2 + n <= left && Stands(b, q + 2, subs[0])
         && (subs[0].Program? <==> Announces(last))
         && (if Ends(subs[0], last) then |subs| == 1
             else
               || (|subs| == 1 && left == 2 + n)
               || (14 + n <= left && Lays(b, q + 12 + n, left - 12 - n, subs[1..], Kind(subs[0]))))
  }

  function KindAfter(subs: seq<Sub>, last: int): int {
    if subs == [] then last else KindAfter(subs[1..], Kind(subs[0]))
  }

  /** One of `subs` ends the module. */
  predicate Terminated(subs: seq<Sub>, last: int) {
    subs != [] && (Ends(subs[0], last) || Terminated(subs[1..], Kind(subs[0])))
  }

  function AskAll(subs: seq<Sub>, rlad: int): seq<Item>
    requires AllProper(subs, rlad)
  {
    if subs == [] then [] else Asks(subs[0], rlad) + AskAll(subs[1..], rlad)
  }

  function Outcome(subs: seq<Sub>, last: int): Verdict {
    if Terminated(subs, last) then Done else GoOn(KindAfter(subs, last))
  }

  /** Reading a record gives what its sub-records ask for, in order. */
  lemma {:induction false} RecordReads(b: Bytes, q: nat, left: nat, last: int, rlad: int, subs: seq<Sub>)
    requires AllProper(subs, rlad) && Lays(b, q, left, subs, last)
    ensures ReadRecord(b, q, left, last, rlad) == Chunk(AskAll(subs, rlad), Outcome(subs, last))
    decreases |subs|
  {
    hide ReadChunk, Proper, Asks, Half, Written, Kind, Stands, Announces;
    if subs != [] {
      var w := |Written(subs[0])|;
      SubGoesOn(b, q, left, last, rlad, subs[0]);
      hide ReadSub, Ends;
      if 14 + w <= left && !Ends(subs[0], last) && left != 2 + w {
        RecordReads(b, q + 12 + w, left - 12 - w, Kind(subs[0]), rlad, subs[1..]);
      } else {
        LastAsks(subs, last, rlad);
      }
    }
  }

  lemma LastAsks(subs: seq<Sub>, last: int, rlad: int)
    requires |subs| == 1 && AllProper(subs, rlad)
    ensures AskAll(subs, rlad) == Asks(subs[0], rlad)
    ensures Outcome(subs, last) == After(subs[0], last)
  {
    hide Asks, Proper, Kind;
    assert subs[1..] == [];
    assert AskAll(subs, rlad) == Asks(subs[0], rlad) + [];
    assert KindAfter(subs[1..], Kind(subs[0])) == Kind(subs[0]);
    assert !Terminated(subs[1..], Kind(subs[0]));
  }

  lemma SubSize(s: Sub, rlad: int)
    requires Proper(s, rlad)
    ensures 1 <= |Written(s)| < 0x8000
  {
  }

  /** One step of reading a record. */
  lemma SubGoesOn(b: Bytes, q: nat, left: nat, last: int, rlad: int, s: Sub)
    requires q + left <= |b| && Proper(s, rlad) && 2 + |Written(s)| <= left
    requires Half(b, q) == |Written(s)| && Stands(b, q + 2, s)
    requires s.Program? <==> Announces(last)
    requires Ends(s, last) || left == 2 + |Written(s)| || 14 + |Written(s)| <= left
    ensures ReadSub(b, q, left, last, rlad)
            == (Asks(s, rlad),
                if Ends(s, last) then Stop(Done)
                else if left == 2 + |Written(s)| then Stop(GoOn(Kind(s)))
                else More(q + 12 + |Written(s)|, left - 12 - |Written(s)|, Kind(s)))
  {
    hide ReadChunk, Asks, Written, Kind, Proper, Ends, Half, Stands, Announces;
    SubSize(s, rlad);
    SubReads(b, q + 2, last, rlad, s);
  }

  /** A record that does not stop the loader was written by a proper writer. */
  lemma {:induction false} RecordWritten(b: Bytes, q: nat, left: nat, last: int, rlad: int) returns (subs: seq<Sub>)
    requires 2 <= left && q + left <= |b|
    requires var v := ReadRecord(b, q, left, last, rlad).verdict; v.GoOn? || v.Done?
    ensures AllProper(subs, rlad) && Lays(b, q, left, subs, last)
    decreases left
  {
    hide ReadChunk, Proper, Asks, Written, Kind, Stands, Announces, Rld, Ends;
    var n := Half(b, q);
    if n == 0 {
      subs := [];
    } else {
      var s := SubWritten(b, q + 2, n, last, rlad);
      SubReads(b, q + 2, last, rlad, s);
      if Ends(s, last) || left == 2 + n {
        subs := [s];
      } else {
        var rest := RecordWritten(b, q + 12 + n, left - 12 - n, Kind(s), rlad);
        subs := [s] + rest;
        assert subs[1..] == rest;
      }
    }
  }

  // ---------- files ----------

  /** The `rem` bytes at `p` hold `records` behind a sub-record of type `last`: each in
      its length, 12 bytes of any kind, and its sub-records.  The last one ends the
      module, and anything may follow it. */
  predicate Holds(b: Bytes, p: nat, rem: nat, records: seq<seq<Sub>>, last: int)
    decreases |records|
  {
    && records != [] && 16 <= rem && p + rem <= |b|
    && var l := Half(b, p);
    && 16 <= l <= rem && Lays(b, p + 14, l - 14, records[0], last)
    && (if Terminated(records[0], last) then |records| == 1
        else Holds(b, p + l, rem - l, records[1..], KindAfter(records[0], last)))
  }

  predicate AllRecordsProper(records: seq<seq<Sub>>, rlad: int) {
    forall r <- records :: AllProper(r, rlad)
  }

  function AskFor(records: seq<seq<Sub>>, rlad: int): seq<Item>
    requires AllRecordsProper(records, rlad)
  {
    if records == [] then [] else AskAll(records[0], rlad) + AskFor(records[1..], rlad)
  }

  lemma {:induction false} RecordsRead(b: Bytes, p: nat, rem: nat, rec: nat, last: int, entry: nat, rlad: int,
                                       records: seq<seq<Sub>>)
    requires rec > 2 && AllRecordsProper(records, rlad) && Holds(b, p, rem, records, last)
    ensures ReadRecords(b, p, rem, rec, last, entry, rlad) == Trace(AskFor(records, rlad), Good(entry))
    decreases |records|
  {
    hide Lays, ReadOne, Terminated, KindAfter, AllProper, AskAll, Half;
    var l := Half(b, p);
    if Terminated(records[0], last) {
      OneGoesOn(b, p, l, rem, rec, last, entry, rlad, records[0]);
      assert records[1..] == [];
    } else {
      RecordsRead(b, p + l, rem - l, rec + 1, KindAfter(records[0], last), entry, rlad, records[1..]);
      OneGoesOn(b, p, l, rem, rec, last, entry, rlad, records[0]);
    }
  }

  /** One step of reading a file. */
  lemma OneGoesOn(b: Bytes, p: nat, l: nat, rem: nat, rec: nat, last: int, entry: nat, rlad: int, subs: seq<Sub>)
    requires p + rem <= |b| && rec > 2 && 16 <= l <= rem && Half(b, p) == l
    requires AllProper(subs, rlad) && Lays(b, p + 14, l - 14, subs, last)
    requires Terminated(subs, last) || rem - l >= 16
    ensures ReadOne(b, p, rem, rec, last, entry, rlad)
            == (AskAll(subs, rlad),
                if Terminated(subs, last) then Ended(Good(entry))
                else Further(p + l, rem - l, KindAfter(subs, last), entry))
  {
    hide Lays, ReadRecord, Terminated, KindAfter, AllProper, AskAll, Half;
    RecordReads(b, p + 14, l - 14, last, rlad, subs);
  }

  /** Records that are read to a good end were written by a proper writer. */
  lemma {:induction false} RecordsWritten(b: Bytes, p: nat, rem: nat, rec: nat, last: int, entry: nat, rlad: int)
      returns (records: seq<seq<Sub>>)
    requires p + rem <= |b| && rec > 2 && ReadRecords(b, p, rem, rec, last, entry, rlad).end.Good?
    ensures AllRecordsProper(records, rlad) && Holds(b, p, rem, records, last)
    decreases rem
  {
    hide Lays, ReadRecord, Terminated, KindAfter, AllProper, AskAll, Half;
    var l := Half(b, p);
    var subs := RecordWritten(b, p + 14, l - 14, last, rlad);
    RecordReads(b, p + 14, l - 14, last, rlad, subs);
    if Terminated(subs, last) {
      records := [subs];
    } else {
      var rest := RecordsWritten(b, p + l, rem - l, rec + 1, KindAfter(subs, last), entry, rlad);
      records := [subs] + rest;
      assert records[1..] == rest;
    }
  }

  /** The first `len` bytes of `b` are a module with this entry point and these
      records: two records of any kind, the first with the PE mark; the directory
      record; and the records of the module. */
  predicate IsModule(b: Bytes, len: nat, entry: nat, records: seq<seq<Sub>>) {
    && len <= |b| && IsPE(b, len)
    && var first := Half(b, 0);
    && 0 <= first && first + 2 <= len
    && var second := Half(b, first);
    && 0 <= second && first + second + 2 <= len
    && var d := first + second;
    && var l := Half(b, d);
    && 292 <= l <= len - d && Half(b, d + 24) >= 32 && Address(b, d + 53) == entry
    && Holds(b, d + l, len - d - l, records, -1)
  }

  lemma FileReads(b: Bytes, len: nat, rlad: int, entry: nat, records: seq<seq<Sub>>)
    requires IsModule(b, len, entry, records) && AllRecordsProper(records, rlad)
    ensures Parse(b, len, rlad) == Trace(AskFor(records, rlad), Good(entry))
  {
    hide Half, AllRecordsProper, AskFor, Lays, ReadRecord;
    var first := Half(b, 0);
    var d := first + Half(b, first);
    var l := Half(b, d);
    RecordsRead(b, d + l, len - d - l, 3, -1, entry, rlad, records);
    hide Holds;
    var items := AskFor(records, rlad);
    assert ReadRecords(b, d, len - d, 2, -1, 0, rlad) == Trace(items, Good(entry)) by {
      assert [] + items == items;
    }
    assert ReadRecords(b, first, len - first, 1, -1, 0, rlad) == Trace(items, Good(entry)) by {
      assert [] + items == items;
    }
    assert [] + items == items;
  }

  /** A record of the first two leads on only if two bytes of the file follow it, for
      otherwise no directory record can. */
  lemma NeedsDirectory(b: Bytes, p: nat, rem: nat, rec: nat, last: int, entry: nat, rlad: int)
    requires p + rem <= |b| && rec <= 2 && rem == 0
    ensures !ReadRecords(b, p, rem, rec, last, entry, rlad).end.Good?
    decreases 2 - rec
  {
    hide ReadRecord;
    if rec < 2 && p + 2 <= |b| && Half(b, p) == 0 {
      NeedsDirectory(b, p, rem, rec + 1, last, entry, rlad);
    }
  }

  lemma LeadsOn(b: Bytes, p: nat, rem: nat, rec: nat, last: int, entry: nat, rlad: int)
    requires p + rem <= |b| && rec < 2 && ReadRecords(b, p, rem, rec, last, entry, rlad).end.Good?
    ensures p + 2 <= |b| && 0 <= Half(b, p) <= rem - 2
    ensures ReadRecords(b, p, rem, rec, last, entry, rlad).end
            == ReadRecords(b, p + Half(b, p), rem - Half(b, p), rec + 1, last, entry, rlad).end
  {
    hide ReadRecord;
    var l := Half(b, p);
    if rem == l {
      NeedsDirectory(b, p + l, 0, rec + 1, last, entry, rlad);
    }
  }

  lemma DirectoryLeadsOn(b: Bytes, p: nat, rem: nat, last: int, entry: nat, rlad: int)
    requires p + rem <= |b| && ReadRecords(b, p, rem, 2, last, entry, rlad).end.Good?
    ensures p + 2 <= |b| && 292 <= Half(b, p) <= rem && Half(b, p + 24) >= 32
    ensures ReadRecords(b, p, rem, 2, last, entry, rlad).end
            == ReadRecords(b, p + Half(b, p), rem - Half(b, p), 3, last, Address(b, p + 53), rlad).end
  {
    hide ReadRecord;
  }

  /** What the loader does not refuse was written by a proper writer. */
  lemma FileWritten(b: Bytes, len: nat, rlad: int) returns (entry: nat, records: seq<seq<Sub>>)
    requires len <= |b| && IsPE(b, len) && Parse(b, len, rlad).end.Good?
    ensures AllRecordsProper(records, rlad) && IsModule(b, len, entry, records)
  {
    hide Half, Address, ReadRecords, Holds, AllRecordsProper, IsPE;
    LeadsOn(b, 0, len, 0, -1, 0, rlad);
    var first := Half(b, 0);
    LeadsOn(b, first, len - first, 1, -1, 0, rlad);
    var d := first + Half(b, first);
    DirectoryLeadsOn(b, d, len - d, -1, 0, rlad);
    entry := Address(b, d + 53);
    records := RecordsWritten(b, d + Half(b, d), len - d - Half(b, d), 3, -1, entry, rlad);
  }

  /** The loader accepts exactly the well-formed modules, and their entry points. */
  lemma ModuleIff(b: Bytes, len: nat, rlad: int, entry: nat)
    requires len <= |b| && IsPE(b, len)
    ensures Parse(b, len, rlad).end == Good(entry)
            <==> exists records :: AllRecordsProper(records, rlad) && IsModule(b, len, entry, records)
  {
    hide Parse, IsModule, AllRecordsProper, IsPE;
    if Parse(b, len, rlad).end == Good(entry) {
      var e, records := FileWritten(b, len, rlad);
      FileReads(b, len, rlad, e, records);
    }
    if records :| AllRecordsProper(records, rlad) && IsModule(b, len, entry, records) {
      FileReads(b, len, rlad, entry, records);
    }
  }

  /** Every module loads to its program: its texts in order, relocated where its
      lists say, entered where its directory says. */
  lemma ModuleLoads(b: Bytes, len: nat, rlad: int, entry: nat, records: seq<seq<Sub>>)
    requires IsModule(b, len, entry, records) && AllRecordsProper(records, rlad)
    ensures Placed(AskFor(records, rlad)) ==>
              && AllInside(Fixes(AskFor(records, rlad)), |Concat(AskFor(records, rlad))|)
              && TwoPass(b, len, rlad)
                 == Loaded(RelocateAll(Concat(AskFor(records, rlad)), Fixes(AskFor(records, rlad)), rlad), entry)
    ensures !Placed(AskFor(records, rlad)) ==> TwoPass(b, len, rlad) == Unspecified
  {
    hide Placed, RelocateAll;
    FileReads(b, len, rlad, entry, records);
    if Placed(AskFor(records, rlad)) {
      PlacedInside(AskFor(records, rlad));
    }
  }

  // ---------- what is refused ----------

  /** The loader may leave the file or its buffer at `z`: the buffer ends, a length
      would be negative, or the list of a dictionary would reach beyond the buffer. */
  predicate Strays(b: Bytes, z: nat) {
    || z + 2 > |b| || Half(b, z) < 0
    || (b[z] == 3 && (z + 8 > |b| || z + 16 + Half(b, z + 6) > |b|))
  }

  lemma ChunkStays(b: Bytes, at: nat, n: nat, last: int, rlad: int)
    requires 1 <= n && at + n <= |b| && ReadChunk(b, at, n, last, rlad).verdict.Outside?
    ensures Strays(b, at)
  {
    hide Rld, Half, Relocations;
    if b[at] == 3 && at + 8 <= |b| && at + Half(b, at + 6) + 16 <= |b| {
      RldStays(b, at + 16, at + Half(b, at + 6) + 16, false, rlad);
    }
    RldStays(b, at + 16, at + n, false, rlad);
  }

  lemma {:induction false} RecordStays(b: Bytes, q: nat, left: nat, last: int, rlad: int) returns (z: nat)
    requires 2 <= left && q + left <= |b| && ReadRecord(b, q, left, last, rlad).verdict.Outside?
    ensures q <= z < q + left && Strays(b, z)
    decreases left
  {
    hide ReadChunk, Half;
    var n := Half(b, q);
    if n < 0 {
      z := q;
    } else if ReadChunk(b, q + 2, n, last, rlad).verdict.Outside? {
      ChunkStays(b, q + 2, n, last, rlad);
      z := q + 2;
    } else {
      var next := ReadSub(b, q, left, last, rlad).1;
      z := RecordStays(b, next.q, next.left, next.last, rlad);
    }
  }

  lemma {:induction false} FileStays(b: Bytes, p: nat, rem: nat, rec: nat, last: int, entry: nat, rlad: int)
      returns (z: nat)
    requires p + rem <= |b| && ReadRecords(b, p, rem, rec, last, entry, rlad).end.Lost?
    ensures p <= z <= p + rem && Strays(b, z)
    decreases if rec < 3 then 3 - rec else 0, rem
  {
    hide ReadRecord, Half, Address, Strays;
    if p + 2 > |b| || Half(b, p) < 0 {
      StraysThere(b, p);
      z := p;
    } else {
      var next := ReadOne(b, p, rem, rec, last, entry, rlad).1;
      match next
      case Further(p', rem', last', entry') =>
        z := FileStays(b, p', rem', rec + 1, last', entry', rlad);
      case Ended(_) =>
        z := RecordStays(b, p + 14, Half(b, p) - 14, last, rlad);
    }
  }

  lemma StraysThere(b: Bytes, p: nat)
    requires p + 2 > |b| || Half(b, p) < 0
    ensures Strays(b, p)
  {
  }

  /** A file that leads nowhere out of its buffer is refused exactly when it is no
      module. */
  lemma RefusedIff(b: Bytes, len: nat, rlad: int)
    requires len <= |b| && IsPE(b, len) && forall z :: 0 <= z <= len ==> !Strays(b, z)
    ensures Parse(b, len, rlad).end == Bad
            <==> forall entry, records :: AllRecordsProper(records, rlad) ==> !IsModule(b, len, entry, records)
  {
    hide IsModule, AllRecordsProper, IsPE, Strays, ReadRecords;
    var end := Parse(b, len, rlad).end;
    if end.Lost? {
      var z := FileStays(b, 0, len, 0, -1, 0, rlad);
    } else if end.Good? {
      var entry, records := FileWritten(b, len, rlad);
    }
    forall entry, records | AllRecordsProper(records, rlad) && IsModule(b, len, entry, records)
      ensures end.Good?
    {
      FileReads(b, len, rlad, entry, records);
    }
  }
}
