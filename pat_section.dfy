/**
 * PATSection.parse: the program association section body of ISO/IEC 13818-1, section 2.4.4.3.
 * The generic section header is decoded by PSISection.parse, which is not part of this model:
 * it is given here as its outcome, null or the cursor position just after the header.
 */
module PatSection {
  import opened Wrappers
  import opened NioUtils

  /** A parsed section: where the generic header ended, the network PIDs in order, and program -> PMT PID. */
  datatype PatSection = PatSection(headerEnd: nat, networkPids: seq<int>, programs: map<int, int>) {
    /** getNetworkPids: the list itself, in the order the entries were read. */
    function GetNetworkPids(): (pids: seq<int>)
      ensures pids == networkPids
    {
      networkPids
    }

    /** getPrograms: the map itself. */
    function GetPrograms(): (m: map<int, int>)
      ensures m == programs
    {
      programs
    }
  }

  /** One 4-byte entry at `pos`: the unsigned 16-bit program number and the low 13 bits of the next word. */
  function Entry(data: seq<byte>, pos: nat): (e: (int, int))
    requires pos + 4 <= |data|
    ensures 0 <= e.0 < 0x1_0000 && 0 <= e.1 < 0x2000
  {
    ((data[pos] as int) * 0x100 + data[pos + 1] as int, ((data[pos + 2] as int) * 0x100 + data[pos + 3] as int) % 0x2000)
  }

  /** The entries the loop consumes from `pos`: one more while more than four bytes remain. */
  function Entries(data: seq<byte>, pos: nat): seq<(int, int)>
    requires pos <= |data|
    decreases |data| - pos
  {
    if |data| - pos > 4 then [Entry(data, pos)] + Entries(data, pos + 4) else []
  }

  /** The PIDs of program number 0, in order of appearance, duplicates kept. */
  function NetworkPidsOf(es: seq<(int, int)>): seq<int> {
    if es == [] then []
    else NetworkPidsOf(es[..|es| - 1]) + (if es[|es| - 1].0 == 0 then [es[|es| - 1].1] else [])
  }

  /** Every non-zero program number mapped to the PID of its last entry. */
  function ProgramsOf(es: seq<(int, int)>): map<int, int> {
    if es == [] then map[]
    else
      var m := ProgramsOf(es[..|es| - 1]);
      var e := es[|es| - 1];
      if e.0 == 0 then m else m[e.0 := e.1]
  }

  /**
   * PATSection.parse over the bytes between the cursor and the limit. Returns null exactly when
   * the header parse did.
   */
  method Parse(data: seq<byte>, psiEnd: Option<nat>) returns (r: Option<PatSection>)
    requires psiEnd.Some? ==> psiEnd.value <= |data|
    ensures r.None? <==> psiEnd.None?
    ensures r.Some? ==> r.value.headerEnd == psiEnd.value
    ensures r.Some? ==> r.value.GetNetworkPids() == NetworkPidsOf(Entries(data, psiEnd.value))
    ensures r.Some? ==> r.value.GetPrograms() == ProgramsOf(Entries(data, psiEnd.value))
  {
    if psiEnd.None? {
      return None;
    }
    var start := psiEnd.value;
    var networkPids: seq<int> := [];
    var programs: map<int, int> := map[];
    var pos := start;
    ghost var consumed: seq<(int, int)> := [];
    while |data| - pos > 4
      invariant start <= pos <= |data|
      invariant Entries(data, start) == consumed + Entries(data, pos)
      invariant networkPids == NetworkPidsOf(consumed)
      invariant programs == ProgramsOf(consumed)
      decreases |data| - pos
    {
      var programNum := (data[pos] as int) * 0x100 + data[pos + 1] as int;
      var w := (data[pos + 2] as int) * 0x100 + data[pos + 3] as int;
      var pid := w % 0x2000;
      assert (programNum, pid) == Entry(data, pos);
      if programNum == 0 {
        networkPids := networkPids + [pid];
      } else {
        programs := programs[programNum := pid];
      }
      assert (consumed + [(programNum, pid)])[..|consumed|] == consumed;
      consumed := consumed + [(programNum, pid)];
      pos := pos + 4;
    }
    assert consumed + Entries(data, pos) == consumed;
    r := Some(PatSection(start, networkPids, programs));
  }

  /**
   * Entry k is read at pos + 4k and ends at least one byte before the limit, so no read
   * underflows; when the body is a whole number of 4-byte groups (entries plus CRC), the last
   * four bytes are never read as an entry.
   */
  lemma {:induction false} EntryPositions(data: seq<byte>, pos: nat, k: nat)
    requires pos <= |data|
    requires k < |Entries(data, pos)|
    ensures pos + 4 * k + 4 < |data|
    ensures Entries(data, pos)[k] == Entry(data, pos + 4 * k)
    ensures (|data| - pos) % 4 == 0 ==> pos + 4 * k + 4 <= |data| - 4
    decreases |data| - pos
  {
    if k > 0 {
      EntryPositions(data, pos + 4, k - 1);
    }
  }

  /** The number of entries read: one per started group of four bytes, keeping the last byte out. */
  lemma {:induction false} EntryCount(data: seq<byte>, pos: nat)
    requires pos <= |data|
    ensures |Entries(data, pos)| == if |data| - pos > 4 then (|data| - pos - 1) / 4 else 0
    decreases |data| - pos
  {
    if |data| - pos > 4 {
      EntryCount(data, pos + 4);
    }
  }

  /** When the body is not a whole number of 4-byte groups, the last entry read overlaps the final four bytes. */
  lemma MisalignedBodyReadsCrc(data: seq<byte>, pos: nat)
    requires pos <= |data| && |data| - pos > 4 && (|data| - pos) % 4 != 0
    ensures var k := |Entries(data, pos)| - 1; k >= 0 && pos + 4 * k + 4 > |data| - 4
  {
    EntryCount(data, pos);
  }

  /** Program number 0 never appears in the program map, and every PMT PID is 13 bits. */
  lemma {:induction false} ProgramsWellFormed(es: seq<(int, int)>)
    requires forall i :: 0 <= i < |es| ==> 0 <= es[i].1 < 0x2000
    ensures 0 !in ProgramsOf(es)
    ensures forall n :: n in ProgramsOf(es) ==> 0 <= ProgramsOf(es)[n] < 0x2000
  {
    if es != [] {
      ProgramsWellFormed(es[..|es| - 1]);
    }
  }

  /** A non-zero program number maps to the PID of its last entry. */
  lemma {:induction false} LastEntryWins(es: seq<(int, int)>, i: nat)
    requires i < |es| && es[i].0 != 0
    requires forall j :: i < j < |es| ==> es[j].0 != es[i].0
    ensures es[i].0 in ProgramsOf(es) && ProgramsOf(es)[es[i].0] == es[i].1
  {
    if i < |es| - 1 {
      LastEntryWins(es[..|es| - 1], i);
    }
  }

  /** A number is a key of the program map exactly when some entry carries it and it is not 0. */
  lemma {:induction false} ProgramKeys(es: seq<(int, int)>, n: int)
    ensures n in ProgramsOf(es) <==> n != 0 && exists i :: 0 <= i < |es| && es[i].0 == n
  {
    if es != [] {
      var init := es[..|es| - 1];
      ProgramKeys(init, n);
      if n != 0 && (exists i :: 0 <= i < |es| && es[i].0 == n) {
        var i :| 0 <= i < |es| && es[i].0 == n;
        if i < |es| - 1 {
          assert init[i].0 == n;
        }
      }
      if exists i :: 0 <= i < |init| && init[i].0 == n {
        var i :| 0 <= i < |init| && init[i].0 == n;
        assert es[i].0 == n;
      }
    }
  }

  /** The network PID list of a concatenation is the concatenation of the lists: order and duplicates are kept. */
  lemma {:induction false} NetworkPidsAppend(a: seq<(int, int)>, b: seq<(int, int)>)
    ensures NetworkPidsOf(a + b) == NetworkPidsOf(a) + NetworkPidsOf(b)
    decreases |b|
  {
    if b == [] {
      assert a + b == a;
    } else {
      var b' := b[..|b| - 1];
      assert (a + b)[..|a + b| - 1] == a + b';
      NetworkPidsAppend(a, b');
    }
  }
}
