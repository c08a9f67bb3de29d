/** Counting the members of the cluster, and collecting their addresses and states, from the
    sequence of keys that the cluster map's iterator yields. */
module Members {
  import opened MemberKeys
  import opened Options

  /** The first key has a member's id, and so may the others; no id is negative or no `int`. */
  predicate Readable(keys: seq<string>) {
    && (|keys| > 0 ==> ScanId(keys[0]).Scanned?)
    && forall i :: 0 <= i < |keys| ==>
         ScanId(keys[i]) != OutOfRange && (ScanId(keys[i]).Scanned? ==> ScanId(keys[i]).value >= 0)
  }

  /** The id in force after key `n` was scanned: a scan that fails leaves the variable alone. */
  function IdAt(keys: seq<string>, n: nat): nat
    requires Readable(keys) && n < |keys|
  {
    if ScanId(keys[n]).Scanned? then ScanId(keys[n]).value else IdAt(keys, n - 1)
  }

  /** The suffix in force after key `n` was scanned; `junk` is in the buffer before. */
  function SuffixAt(keys: seq<string>, n: nat, junk: string): string
    requires n < |keys|
  {
    match ScanIdAndSuffix(keys[n])
    case Scanned(pair, _) => pair.1
    case _ => if n == 0 then junk else SuffixAt(keys, n - 1, junk)
  }

  // ---------- keys as the generators print them

  /** The keys are printed members keys, of ids that fit an `int` and suffixes that `%s` reads whole. */
  ghost predicate Printed(keys: seq<string>, ids: seq<nat>, suffixes: seq<string>) {
    && |keys| == |ids| == |suffixes|
    && (forall i :: 0 <= i < |ids| ==> ids[i] < 0x8000_0000)
    && (forall i :: 0 <= i < |keys| ==> IsWord(suffixes[i]) && keys[i] == MembersKey(ids[i], suffixes[i]))
  }

  /** Behind each printed key the id and the suffix in force are those it was printed from. */
  lemma PrintedKeysRead(keys: seq<string>, ids: seq<nat>, suffixes: seq<string>, junk: string)
    requires Printed(keys, ids, suffixes)
    ensures Readable(keys) && KeyIds(keys) == ids
    ensures forall i :: 0 <= i < |keys| ==> IdAt(keys, i) == ids[i] && SuffixAt(keys, i, junk) == suffixes[i]
  {
    hide MembersKey, ScanId, ScanIdAndSuffix, IsWord;
    forall i | 0 <= i < |keys|
      ensures ScanId(keys[i]) == Scanned(ids[i], "." + suffixes[i])
      ensures ScanIdAndSuffix(keys[i]) == Scanned((ids[i], suffixes[i]), [])
    {
      MembersKeyRoundTrip(ids[i], suffixes[i]);
    }
  }

  /** A key with an id but no dot and word behind it has its id in force, and the suffix of the key before it. */
  lemma SuffixCarriedOver(keys: seq<string>, n: nat, id: nat, rest: string, junk: string)
    requires Readable(keys) && n < |keys| && id < 0x8000_0000
    requires keys[n] == "runtime.totem.pg.mrp.srp.members." + (Decimal(id) + rest)
    requires rest == [] || (!('0' <= rest[0] <= '9') && (rest[0] == '.' ==> Blank(rest[1..])))
    ensures IdAt(keys, n) == id
    ensures SuffixAt(keys, n, junk) == if n == 0 then junk else SuffixAt(keys, n - 1, junk)
  {
    hide ScanId, ScanIdAndSuffix, Decimal;
    ScanWithoutSuffix(keys[n], id, rest);
  }

  /** A key of another kind leaves both in force. */
  lemma ForeignKeySkipped(keys: seq<string>, n: nat, junk: string)
    requires Readable(keys) && 0 < n < |keys| && !("runtime.totem.pg.mrp.srp.members." <= keys[n])
    ensures IdAt(keys, n) == IdAt(keys, n - 1) && SuffixAt(keys, n, junk) == SuffixAt(keys, n - 1, junk)
  {
  }

  function KeyIds(keys: seq<string>): (ids: seq<nat>)
    requires Readable(keys)
    ensures |ids| == |keys| && forall i :: 0 <= i < |keys| ==> ids[i] == IdAt(keys, i)
  {
    seq(|keys|, i requires 0 <= i < |keys| => IdAt(keys, i))
  }

  // ---------- runs of equal ids

  /** The number of maximal runs of equal ids. */
  function Runs(ids: seq<nat>): (n: nat)
    ensures n <= |ids| && (|ids| > 0 ==> n > 0)
    decreases |ids|
  {
    if |ids| == 0 then 0
    else Runs(ids[..|ids| - 1]) + if Starts(ids, |ids| - 1) then 1 else 0
  }

  /** A run starts at index `i`. */
  predicate Starts(ids: seq<nat>, i: nat)
    requires i < |ids|
  {
    i == 0 || ids[i] != ids[i - 1]
  }

  lemma RunsStep(ids: seq<nat>, n: nat)
    requires n < |ids|
    ensures Runs(ids[..n + 1]) == Runs(ids[..n]) + if Starts(ids, n) then 1 else 0
  {
    assert ids[..n + 1][..n] == ids[..n];
  }

  lemma {:induction false} RunsMonotone(ids: seq<nat>, m: nat, n: nat)
    requires m <= n <= |ids|
    ensures Runs(ids[..m]) <= Runs(ids[..n])
    decreases n - m
  {
    if m < n {
      RunsMonotone(ids, m, n - 1);
      RunsStep(ids, n - 1);
    }
  }

  /** The number of the run that index `i` belongs to. */
  function RunOf(ids: seq<nat>, i: nat): (r: nat)
    requires i < |ids|
    ensures r < Runs(ids) && r == Runs(ids[..i + 1]) - 1
  {
    RunsMonotone(ids, i + 1, |ids|);
    assert ids[..|ids|] == ids;
    Runs(ids[..i + 1]) - 1
  }

  predicate Contiguous(ids: seq<nat>) {
    forall i, j, k :: 0 <= i < j < k < |ids| && ids[i] == ids[k] ==> ids[j] == ids[i]
  }

  function Distinct(ids: seq<nat>): set<nat> {
    set i | 0 <= i < |ids| :: ids[i]
  }

  /** The number of runs is never below the number of distinct ids, and it is that number exactly
      when the keys of each member are adjacent. */
  lemma {:induction false} RunsCountMembers(ids: seq<nat>)
    ensures Runs(ids) >= |Distinct(ids)|
    ensures Runs(ids) == |Distinct(ids)| <==> Contiguous(ids)
    decreases |ids|
  {
    if |ids| == 0 {
    } else {
      var n := |ids| - 1;
      var front := ids[..n];
      RunsCountMembers(front);
      DistinctStep(ids);
      ContiguousStep(ids);
    }
  }

  lemma DistinctStep(ids: seq<nat>)
    requires |ids| > 0
    ensures var n := |ids| - 1;
            |Distinct(ids)| == |Distinct(ids[..n])| + if ids[n] in ids[..n] then 0 else 1
  {
    var n := |ids| - 1;
    assert ids == ids[..n] + [ids[n]];
    assert Distinct(ids) == Distinct(ids[..n]) + {ids[n]};
    assert ids[n] in ids[..n] <==> ids[n] in Distinct(ids[..n]);
  }

  lemma ContiguousStep(ids: seq<nat>)
    requires |ids| > 0
    ensures var n := |ids| - 1;
            Contiguous(ids) <==> Contiguous(ids[..n]) && (Starts(ids, n) ==> ids[n] !in ids[..n])
  {
  }

  /** `get_member_count` */
  method GetMemberCount(keys: seq<string>) returns (total: nat)
    requires Readable(keys)
    ensures total == Runs(KeyIds(keys))
    ensures total == |Distinct(KeyIds(keys))| <==> Contiguous(KeyIds(keys))
    ensures forall ids, suffixes :: Printed(keys, ids, suffixes) ==>
              total == Runs(ids) && (total == |Distinct(ids)| <==> Contiguous(ids))
  {
    hide ScanId, Printed;
    ghost var ids := KeyIds(keys);
    var prev, id := -1, 0;
    total := 0;
    for i := 0 to |keys|
      invariant total == Runs(ids[..i])
      invariant i == 0 ==> prev == -1
      invariant i > 0 ==> prev == id == ids[i - 1]
    {
      var scan := ScanId(keys[i]);
      if scan.Scanned? {
        id := scan.value;
      }
      RunsStep(ids, i);
      if id != prev {
        prev := id;
        total := total + 1;
      }
    }
    assert ids[..|keys|] == ids;
    RunsCountMembers(ids);
    forall printed, suffixes | Printed(keys, printed, suffixes)
      ensures printed == ids
    {
      PrintedKeysRead(keys, printed, suffixes, "");
    }
  }

  // ---------- filling the array

  datatype Record = Record(nodeid: int, ip: string, status: string)

  /** The value of a key in the map, if it can be fetched. */
  type Lookup = string -> Option<string>

  /** What the loop knows of a key: the id and the suffix in force, and the key's value. */
  datatype Entry = Entry(id: nat, suffix: string, value: Option<string>)

  function Entries(keys: seq<string>, junk: string, lookup: Lookup): (es: seq<Entry>)
    requires Readable(keys)
    ensures |es| == |keys|
    ensures forall i :: 0 <= i < |keys| ==> es[i] == Entry(IdAt(keys, i), SuffixAt(keys, i, junk), lookup(keys[i]))
  {
    seq(|keys|, i requires 0 <= i < |keys| => Entry(IdAt(keys, i), SuffixAt(keys, i, junk), lookup(keys[i])))
  }

  function Ids(es: seq<Entry>): (ids: seq<nat>)
    ensures |ids| == |es| && forall i :: 0 <= i < |es| ==> ids[i] == es[i].id
  {
    seq(|es|, i requires 0 <= i < |es| => es[i].id)
  }

  function Stored(r: Record, e: Entry): Record {
    if e.value.None? then r
    else if e.suffix == "ip" then r.(ip := e.value.value)
    else if e.suffix == "status" then r.(status := e.value.value)
    else r
  }

  /** What the `n`th key does to the record of its run. */
  function Updated(r: Record, es: seq<Entry>, n: nat): Record
    requires n < |es|
  {
    Stored(if Starts(Ids(es), n) then r.(nodeid := es[n].id) else r, es[n])
  }

  /** The array's records after the first `n` keys have been read. */
  function Filled(before: seq<Record>, es: seq<Entry>, n: nat): (after: seq<Record>)
    requires n <= |es| && Runs(Ids(es)) <= |before|
    ensures |after| == |before|
    decreases n
  {
    if n == 0 then before
    else
      var r, j := Filled(before, es, n - 1), RunOf(Ids(es), n - 1);
      r[j := Updated(r[j], es, n - 1)]
  }

  lemma FilledStep(before: seq<Record>, es: seq<Entry>, n: nat)
    requires n < |es| && Runs(Ids(es)) <= |before|
    ensures var j, r := RunOf(Ids(es), n), Filled(before, es, n);
            && j + 1 == Runs(Ids(es)[..n]) + (if Starts(Ids(es), n) then 1 else 0)
            && Filled(before, es, n + 1) == r[j := Updated(r[j], es, n)]
  {
    RunsStep(Ids(es), n);
  }

  lemma NothingFilled(before: seq<Record>, es: seq<Entry>)
    requires Runs(Ids(es)) <= |before|
    ensures Runs(Ids(es)[..0]) == 0 && Filled(before, es, 0) == before
  {
  }

  class ClusterMember {
    var nodeid: int
    var ip: string
    var status: string

    ghost function Value(): Record
      reads this
    {
      Record(nodeid, ip, status)
    }

    /** Stores the value of a key with the suffix `ip` or `status`, if it can be fetched. */
    method Store(key: string, suffix: string, lookup: Lookup, ghost id: nat)
      modifies this
      ensures Value() == Stored(old(Value()), Entry(id, suffix, lookup(key)))
    {
      if suffix == "ip" {
        var value := lookup(key);
        if value.Some? {
          ip := value.value;
        }
      } else if suffix == "status" {
        var value := lookup(key);
        if value.Some? {
          status := value.value;
        }
      }
    }
  }

  ghost function Values(members: seq<ClusterMember>): (records: seq<Record>)
    reads members
    ensures |records| == |members| && forall i :: 0 <= i < |members| ==> records[i] == members[i].Value()
  {
    if members == [] then [] else [members[0].Value()] + Values(members[1..])
  }

  /** `get_members`, on an array with at least as many members as `get_member_count` finds. The
      contents of its suffix buffer are `junk` at first; they are never cleared. */
  method GetMembers(
    keys: seq<string>, junk: string, lookup: Lookup, members: array<ClusterMember>, ghost before: seq<Record>)
    requires Readable(keys)
    requires members.Length >= Runs(KeyIds(keys))
    requires forall i, j :: 0 <= i < j < members.Length ==> members[i] != members[j]
    requires |before| == members.Length && forall i :: 0 <= i < members.Length ==> before[i] == members[i].Value()
    modifies set i | 0 <= i < members.Length :: members[i]
    ensures Ids(Entries(keys, junk, lookup)) == KeyIds(keys)
    ensures forall i :: 0 <= i < members.Length ==>
              members[i].Value() == Filled(before, Entries(keys, junk, lookup), |keys|)[i]
    ensures forall ids, suffixes :: Printed(keys, ids, suffixes) && Contiguous(ids) ==>
              HoldMembers(Values(members[..]), before, keys, ids, lookup)
  {
    hide ScanId, ScanIdAndSuffix, Stored, Runs, RunOf, Filled, Printed, Contiguous, HoldMembers, Values;
    ghost var es := Entries(keys, junk, lookup);
    assert Ids(es) == KeyIds(keys);
    NothingFilled(before, es);
    var prev, i, id, suffix := -1, -1, 0, junk;
    for n := 0 to |keys|
      invariant i == Runs(Ids(es)[..n]) - 1
      invariant n == 0 ==> prev == -1 && suffix == junk
      invariant n > 0 ==> prev == id == es[n - 1].id && suffix == es[n - 1].suffix
      invariant forall j :: 0 <= j < members.Length ==> members[j].Value() == Filled(before, es, n)[j]
    {
      var idScan, suffixScan := ScanId(keys[n]), ScanIdAndSuffix(keys[n]);
      if idScan.Scanned? {
        id := idScan.value;
      }
      if suffixScan.Scanned? {
        suffix := suffixScan.value.1;
      }
      RunsStep(Ids(es), n);
      FilledStep(before, es, n);
      if id != prev {
        prev := id;
        i := i + 1;
        members[i].nodeid := id;
      }
      members[i].Store(keys[n], suffix, lookup, es[n].id);
    }
    assert Values(members[..]) == Filled(before, es, |keys|);
    AllPrintedMembers(before, keys, junk, lookup);
  }

  // ---------- what the records then say

  lemma RunOfStep(ids: seq<nat>, n: nat)
    requires 0 < n < |ids|
    ensures RunOf(ids, n) == RunOf(ids, n - 1) + if Starts(ids, n) then 1 else 0
  {
    RunsStep(ids, n);
  }

  lemma {:induction false} RunOfMonotone(ids: seq<nat>, a: nat, b: nat)
    requires a <= b < |ids|
    ensures RunOf(ids, a) <= RunOf(ids, b)
    ensures RunOf(ids, a) == RunOf(ids, b) ==> ids[a] == ids[b]
    ensures (forall m :: a <= m <= b ==> ids[m] == ids[a]) ==> RunOf(ids, a) == RunOf(ids, b)
    decreases b
  {
    hide RunOf;
    if a < b {
      RunOfMonotone(ids, a, b - 1);
      RunOfStep(ids, b);
    }
  }

  /** Adjacent keys of each member make each member one run. */
  lemma RunsAreMembers(ids: seq<nat>, a: nat, b: nat)
    requires Contiguous(ids) && a < |ids| && b < |ids|
    ensures ids[a] == ids[b] <==> RunOf(ids, a) == RunOf(ids, b)
  {
    hide RunOf;
    RunOfMonotone(ids, if a < b then a else b, if a < b then b else a);
  }

  /** Key `m` stores a value under `suffix` in the record of run `run`. */
  predicate Stores(es: seq<Entry>, m: nat, run: nat, suffix: string)
    requires m < |es|
  {
    RunOf(Ids(es), m) == run && es[m].suffix == suffix && es[m].value.Some?
  }

  /** After `n` keys the record of a run carries the run's id, and under each suffix the value
      of the last key of the run that stores one. */
  ghost predicate Recorded(before: seq<Record>, es: seq<Entry>, n: nat, k: nat)
    requires k < n <= |es| && Runs(Ids(es)) <= |before|
  {
    var j := RunOf(Ids(es), k);
    var r := Filled(before, es, n)[j];
    && r.nodeid == es[k].id
    && (Stores(es, k, j, "ip") && (forall m :: k < m < n ==> !Stores(es, m, j, "ip")) ==> r.ip == es[k].value.value)
    && (Stores(es, k, j, "status") && (forall m :: k < m < n ==> !Stores(es, m, j, "status"))
        ==> r.status == es[k].value.value)
  }

  /** A key touches at most one field of its own run's record. */
  lemma KeyStores(es: seq<Entry>, n: nat, j: nat)
    requires n < |es|
    ensures forall r: Record :: RunOf(Ids(es), n) == j ==>
              && (Updated(r, es, n).ip == if Stores(es, n, j, "ip") then es[n].value.value else r.ip)
              && (Updated(r, es, n).status == if Stores(es, n, j, "status") then es[n].value.value else r.status)
  {
    assert "ip" != "status";
  }

  lemma {:induction false} LastRecord(before: seq<Record>, es: seq<Entry>, n: nat)
    requires n < |es| && Runs(Ids(es)) <= |before|
    ensures Filled(before, es, n + 1)[RunOf(Ids(es), n)].nodeid == es[n].id
  {
    hide RunOf, Runs;
    if n > 0 {
      LastRecord(before, es, n - 1);
      RunOfStep(Ids(es), n);
    }
  }

  lemma {:induction false} FilledRecords(before: seq<Record>, es: seq<Entry>, n: nat, k: nat)
    requires k < n <= |es| && Runs(Ids(es)) <= |before|
    ensures Recorded(before, es, n, k)
    decreases n
  {
    hide RunOf, Runs;
    KeyStores(es, n - 1, RunOf(Ids(es), k));
    if k < n - 1 {
      FilledRecords(before, es, n - 1, k);
      RunOfMonotone(Ids(es), k, n - 2);
      RunOfStep(Ids(es), n - 1);
    } else {
      LastRecord(before, es, k);
    }
  }

  /** A record keeps what no key of its run replaces, and the records beyond the last run keep everything. */
  lemma {:induction false} FilledKeeps(before: seq<Record>, es: seq<Entry>, n: nat, j: nat)
    requires n <= |es| && Runs(Ids(es)) <= |before| && j < |before|
    ensures (forall m :: 0 <= m < n ==> !Stores(es, m, j, "ip")) ==> Filled(before, es, n)[j].ip == before[j].ip
    ensures (forall m :: 0 <= m < n ==> !Stores(es, m, j, "status")) ==>
              Filled(before, es, n)[j].status == before[j].status
    ensures j >= Runs(Ids(es)) ==> Filled(before, es, n)[j] == before[j]
    decreases n
  {
    hide RunOf, Runs;
    if n > 0 {
      KeyStores(es, n - 1, j);
      FilledKeeps(before, es, n - 1, j);
    }
  }

  /** Key `k` has the suffix, its value can be fetched, and no other key of its member is like that. */
  predicate OnlyValue(es: seq<Entry>, k: nat, suffix: string)
    requires k < |es|
  {
    && es[k].suffix == suffix && es[k].value.Some?
    && forall m :: 0 <= m < |es| && m != k && es[m].id == es[k].id && es[m].suffix == suffix ==> es[m].value.None?
  }

  /** When the keys of each member are adjacent, there is one record per member; it carries the
      member's id, and its only address and its only state that can be fetched. */
  lemma MembersCollected(before: seq<Record>, es: seq<Entry>, k: nat)
    requires Contiguous(Ids(es)) && Runs(Ids(es)) <= |before| && k < |es|
    ensures Runs(Ids(es)) == |Distinct(Ids(es))|
    ensures var j := RunOf(Ids(es), k);
            var r := Filled(before, es, |es|)[j];
            && (forall m :: 0 <= m < |es| ==> (es[m].id == r.nodeid <==> RunOf(Ids(es), m) == j))
            && (OnlyValue(es, k, "ip") ==> r.ip == es[k].value.value)
            && (OnlyValue(es, k, "status") ==> r.status == es[k].value.value)
  {
    hide RunOf, Runs, Filled, Contiguous;
    RunsCountMembers(Ids(es));
    FilledRecords(before, es, |es|, k);
    forall m | 0 <= m < |es|
      ensures es[m].id == es[k].id <==> RunOf(Ids(es), m) == RunOf(Ids(es), k)
    {
      RunsAreMembers(Ids(es), m, k);
    }
  }

  // ---------- the records of printed keys

  /** The value of a key of the map, or what the field held before. */
  function FieldOf(keys: seq<string>, key: string, lookup: Lookup, before: string): string {
    if key in keys && lookup(key).Some? then lookup(key).value else before
  }

  /** The record of a member: its id, and the values of its address key and its status key. */
  function MemberRecord(keys: seq<string>, id: nat, lookup: Lookup, before: Record): Record
    requires id < 0x8000_0000
  {
    Record(id, FieldOf(keys, MembersKey(id, "ip"), lookup, before.ip),
           FieldOf(keys, MembersKey(id, "status"), lookup, before.status))
  }

  /** The last of the first `n` keys that stores a value under `suffix` in the record of run `j`. */
  lemma {:induction false} LastStoring(es: seq<Entry>, n: nat, j: nat, suffix: string) returns (last: int)
    requires n <= |es|
    ensures -1 <= last < n && (last >= 0 ==> Stores(es, last, j, suffix))
    ensures forall m :: last < m < n ==> !Stores(es, m, j, suffix)
  {
    hide RunOf;
    if n == 0 {
      last := -1;
    } else if Stores(es, n - 1, j, suffix) {
      last := n - 1;
    } else {
      last := LastStoring(es, n - 1, j, suffix);
    }
  }

  /** What the key at `m` stores for the member of the key at `k`, when keys are printed and adjacent. */
  lemma PrintedStores(
    keys: seq<string>, ids: seq<nat>, suffixes: seq<string>, junk: string, lookup: Lookup,
    k: nat, suffix: string)
    requires Printed(keys, ids, suffixes) && Contiguous(ids) && k < |keys|
    ensures Readable(keys) && Ids(Entries(keys, junk, lookup)) == ids
    ensures var es, j, key := Entries(keys, junk, lookup), RunOf(ids, k), MembersKey(ids[k], suffix);
            && (forall m :: 0 <= m < |keys| && Stores(es, m, j, suffix) ==>
                  keys[m] == key && ids[m] == ids[k] && es[m].value == lookup(key) && lookup(key).Some?)
            && (key in keys && lookup(key).Some? ==> exists m :: 0 <= m < |keys| && Stores(es, m, j, suffix))
  {
    hide RunOf, MembersKey, Contiguous, SuffixAt, IdAt, Readable;
    PrintedKeysRead(keys, ids, suffixes, junk);
    var es, j, key := Entries(keys, junk, lookup), RunOf(ids, k), MembersKey(ids[k], suffix);
    assert Ids(es) == ids;
    forall m | 0 <= m < |keys|
      ensures Stores(es, m, j, suffix) <==> keys[m] == key && lookup(key).Some?
      ensures Stores(es, m, j, suffix) ==> keys[m] == key && ids[m] == ids[k] && es[m].value == lookup(key)
    {
      RunsAreMembers(ids, m, k);
      GeneratorsInjective(ids[m], suffixes[m], ids[k], suffix);
    }
  }

  /** From printed keys, with each member's keys adjacent, the record of each member carries its id,
      the value of its key `ip` and that of its key `status`, as far as they can be fetched. */
  lemma PrintedRecords(
    before: seq<Record>, keys: seq<string>, ids: seq<nat>, suffixes: seq<string>, junk: string, lookup: Lookup, k: nat)
    requires Printed(keys, ids, suffixes) && Contiguous(ids) && k < |keys|
    requires Runs(ids) <= |before|
    ensures Readable(keys) && KeyIds(keys) == ids && Runs(Ids(Entries(keys, junk, lookup))) <= |before|
    ensures Filled(before, Entries(keys, junk, lookup), |keys|)[RunOf(ids, k)] ==
            MemberRecord(keys, ids[k], lookup, before[RunOf(ids, k)])
  {
    hide RunOf, Runs, MembersKey, Contiguous, SuffixAt, IdAt, Readable, Filled, Stores, Printed;
    PrintedKeysRead(keys, ids, suffixes, junk);
    PrintedStores(keys, ids, suffixes, junk, lookup, k, "ip");
    PrintedStores(keys, ids, suffixes, junk, lookup, k, "status");
    var es, j := Entries(keys, junk, lookup), RunOf(ids, k);
    FilledRecords(before, es, |es|, k);
    FilledKeeps(before, es, |es|, j);
    var ip := LastStoring(es, |es|, j, "ip");
    var status := LastStoring(es, |es|, j, "status");
    if ip >= 0 {
      StoringRun(es, ip, j, "ip");
      FilledRecords(before, es, |es|, ip);
    }
    if status >= 0 {
      StoringRun(es, status, j, "status");
      FilledRecords(before, es, |es|, status);
    }
  }

  /** The record of each member's run holds what the map says of this member. */
  ghost predicate HoldMembers(
    after: seq<Record>, before: seq<Record>, keys: seq<string>, ids: seq<nat>, lookup: Lookup)
  {
    && Runs(ids) <= |before| == |after|
    && forall k :: 0 <= k < |ids| ==>
         && ids[k] < 0x8000_0000
         && after[RunOf(ids, k)] == MemberRecord(keys, ids[k], lookup, before[RunOf(ids, k)])
  }

  lemma PrintedMembers(
    before: seq<Record>, keys: seq<string>, ids: seq<nat>, suffixes: seq<string>, junk: string, lookup: Lookup)
    requires Readable(keys) && Runs(KeyIds(keys)) <= |before|
    requires Printed(keys, ids, suffixes) && Contiguous(ids)
    ensures Ids(Entries(keys, junk, lookup)) == KeyIds(keys) == ids
    ensures HoldMembers(Filled(before, Entries(keys, junk, lookup), |keys|), before, keys, ids, lookup)
  {
    hide RunOf, Runs, Contiguous, SuffixAt, IdAt, Readable, Filled, Printed, MemberRecord;
    PrintedKeysRead(keys, ids, suffixes, junk);
    assert Ids(Entries(keys, junk, lookup)) == ids;
    forall k | 0 <= k < |ids|
      ensures ids[k] < 0x8000_0000
      ensures Filled(before, Entries(keys, junk, lookup), |keys|)[RunOf(ids, k)] ==
              MemberRecord(keys, ids[k], lookup, before[RunOf(ids, k)])
    {
      PrintedId(keys, ids, suffixes, k);
      PrintedRecords(before, keys, ids, suffixes, junk, lookup, k);
    }
  }

  lemma AllPrintedMembers(before: seq<Record>, keys: seq<string>, junk: string, lookup: Lookup)
    requires Readable(keys) && Runs(KeyIds(keys)) <= |before| && Ids(Entries(keys, junk, lookup)) == KeyIds(keys)
    ensures forall ids, suffixes :: Printed(keys, ids, suffixes) && Contiguous(ids) ==>
              HoldMembers(Filled(before, Entries(keys, junk, lookup), |keys|), before, keys, ids, lookup)
  {
    hide Runs, Contiguous, Readable, Filled, Printed, HoldMembers;
    forall ids, suffixes | Printed(keys, ids, suffixes) && Contiguous(ids)
      ensures HoldMembers(Filled(before, Entries(keys, junk, lookup), |keys|), before, keys, ids, lookup)
    {
      PrintedMembers(before, keys, ids, suffixes, junk, lookup);
    }
  }

  lemma PrintedId(keys: seq<string>, ids: seq<nat>, suffixes: seq<string>, k: nat)
    requires Printed(keys, ids, suffixes) && k < |ids|
    ensures ids[k] < 0x8000_0000
  {
  }

  lemma StoringRun(es: seq<Entry>, m: nat, j: nat, suffix: string)
    requires m < |es| && Stores(es, m, j, suffix)
    ensures RunOf(Ids(es), m) == j && es[m].value.Some?
  {
  }

  /** Every run has a key, so every record up to the number of runs is that of a member. */
  lemma {:induction false} RunsInhabited(ids: seq<nat>, j: nat) returns (k: nat)
    requires j < Runs(ids)
    ensures k < |ids| && RunOf(ids, k) == j
    decreases |ids|
  {
    var n := |ids| - 1;
    assert ids[..n + 1] == ids;
    if RunOf(ids, n) == j {
      k := n;
    } else {
      RunsStep(ids, n);
      k := RunsInhabited(ids[..n], j);
      assert ids[..n][..k + 1] == ids[..k + 1];
    }
  }
}
