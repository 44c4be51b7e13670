/** The reload logic of the release-channel server: the current store, the
    watermark (the modification time of the data file last loaded), building a
    fresh store from the file's bytes, and the stat / compare / read / load /
    advance sequence of a reload. The file system and the JSON decoder are
    outside the model: their outcomes are inputs. */
module Server {
  import opened Wrappers
  import opened Db

  type Bytes = seq<bv8>

  /** The outcome of stating the data file: its modification time, or an error. */
  datatype StatResult = Stat(modTime: int) | StatFailed

  /** The outcome of reading the data file: its contents, or an error. */
  datatype ReadResult = Read(data: Bytes) | ReadFailed

  /** The JSON decoder: the `releases` list a byte blob decodes to, or None
      when the blob is not well-formed. */
  type Parser = Bytes -> Option<seq<Release>>

  datatype ServerError = StatError | ReadError | ParseError

  /** Go's zero time.Time, the watermark when the file cannot be stated at start-up. */
  const ZeroTime: int := 0

  /** The releases a fresh store holds after writing `rs` in order: the
      well-formed ones, since Write refuses the others and the load goes on. */
  function Accepted(rs: seq<Release>): (kept: seq<Release>)
    ensures |kept| <= |rs|
    ensures forall r :: r in kept ==> WellFormed(r)
  {
    if rs == [] then []
    else (if WellFormed(rs[0]) then [rs[0]] else []) + Accepted(rs[1..])
  }

  /** Loading is record by record: the releases accepted from a concatenation
      are those accepted from each part. */
  lemma {:induction false} AcceptedConcat(a: seq<Release>, b: seq<Release>)
    ensures Accepted(a + b) == Accepted(a) + Accepted(b)
    decreases |a|
  {
    if a == [] {
      assert [] + b == b;
    } else {
      assert (a + b)[0] == a[0];
      assert (a + b)[1..] == a[1..] + b;
      AcceptedConcat(a[1..], b);
    }
  }

  /** One more record of the input: it is kept when well-formed and skipped otherwise. */
  lemma AcceptedPrefix(rs: seq<Release>, i: nat)
    requires i < |rs|
    ensures Accepted(rs[..i + 1]) == Accepted(rs[..i]) + (if WellFormed(rs[i]) then [rs[i]] else [])
  {
    AcceptedConcat(rs[..i], [rs[i]]);
    assert [rs[i]][1..] == [];
    assert rs[..i + 1] == rs[..i] + [rs[i]];
  }

  /** A refused record is skipped and the records after it are still loaded. */
  lemma SkipsInvalidRecord(a: seq<Release>, bad: Release, b: seq<Release>)
    requires !WellFormed(bad)
    ensures Accepted(a + [bad] + b) == Accepted(a) + Accepted(b)
  {
    assert Accepted([bad]) == [] by {
      assert [bad][1..] == [];
    }
    AcceptedConcat(a, [bad]);
    assert Accepted(a + [bad]) == Accepted(a);
    AcceptedConcat(a + [bad], b);
  }

  /** The loaded store holds exactly the well-formed records, and keeps every
      record of an input that is well-formed throughout. */
  lemma {:induction false} AcceptedMembers(rs: seq<Release>, x: Release)
    ensures x in Accepted(rs) <==> x in rs && WellFormed(x)
    ensures (forall r :: r in rs ==> WellFormed(r)) ==> Accepted(rs) == rs
    decreases |rs|
  {
    if rs != [] {
      AcceptedMembers(rs[1..], x);
      assert rs == [rs[0]] + rs[1..];
      assert forall r :: r in rs[1..] ==> r in rs;
    }
  }

  /** What the store holds after loadDatabase: nothing when parsing failed,
      the accepted records otherwise. */
  function Loaded(parsed: Option<seq<Release>>): seq<Release>
  {
    match parsed
    case None => []
    case Some(rs) => Accepted(rs)
  }

  /** The watermark New starts from. */
  function InitialWatermark(stat: StatResult): (w: int)
    ensures stat.Stat? ==> w == stat.modTime
    ensures stat.StatFailed? ==> w == ZeroTime
  {
    match stat
    case Stat(t) => t
    case StatFailed => ZeroTime
  }

  /** The decision one reload takes: its result, the contents of the fresh
      store it installs (None: the current store stays), and the new watermark. */
  datatype Plan = Plan(result: Outcome<ServerError>, install: Option<seq<Release>>, watermark: int)

  /** ReloadDatabase as a function of the watermark and the outcomes of stat,
      read and parse. */
  function ReloadPlan(lastMod: int, stat: StatResult, read: ReadResult, parse: Parser): (p: Plan)
    ensures p.watermark >= lastMod
    ensures p.result.Fail? ==> p.watermark == lastMod
    ensures stat.StatFailed? ==> p.install.None?
  {
    match stat
    case StatFailed => Plan(Fail(StatError), None, lastMod)
    case Stat(t) =>
      if !(t > lastMod) then Plan(Pass, None, lastMod)
      else
        match read
        case ReadFailed => Plan(Fail(ReadError), None, lastMod)
        case Read(data) =>
          match parse(data)
          case None => Plan(Fail(ParseError), Some([]), lastMod)
          case Some(rs) => Plan(Pass, Some(Accepted(rs)), t)
  }

  /** A stat error fails the reload and keeps store and watermark. */
  lemma ReloadStatError(lastMod: int, read: ReadResult, parse: Parser)
    ensures ReloadPlan(lastMod, StatFailed, read, parse) == Plan(Fail(StatError), None, lastMod)
  {
  }

  /** A file not modified after the watermark is skipped: success, nothing changes. */
  lemma ReloadUnchangedFile(lastMod: int, t: int, read: ReadResult, parse: Parser)
    requires t <= lastMod
    ensures ReloadPlan(lastMod, Stat(t), read, parse) == Plan(Pass, None, lastMod)
  {
  }

  /** A read error after a newer modification time fails and keeps store and watermark. */
  lemma ReloadReadError(lastMod: int, t: int, parse: Parser)
    requires t > lastMod
    ensures ReloadPlan(lastMod, Stat(t), ReadFailed, parse) == Plan(Fail(ReadError), None, lastMod)
  {
  }

  /** A parse failure fails the reload and keeps the watermark, but the store
      has already been replaced by an empty one. */
  lemma ReloadParseError(lastMod: int, t: int, data: Bytes, parse: Parser)
    requires t > lastMod && parse(data).None?
    ensures ReloadPlan(lastMod, Stat(t), Read(data), parse) == Plan(Fail(ParseError), Some([]), lastMod)
  {
  }

  /** A successful reload installs the accepted records and advances the
      watermark to the file's modification time. */
  lemma ReloadSuccess(lastMod: int, t: int, data: Bytes, parse: Parser)
    requires t > lastMod && parse(data).Some?
    ensures ReloadPlan(lastMod, Stat(t), Read(data), parse) == Plan(Pass, Some(Accepted(parse(data).value)), t)
  {
  }

  /** The watermark never decreases, and it moves only on a successful
      reload that installed a new store. */
  lemma WatermarkMonotone(lastMod: int, stat: StatResult, read: ReadResult, parse: Parser)
    ensures ReloadPlan(lastMod, stat, read, parse).watermark >= lastMod
    ensures ReloadPlan(lastMod, stat, read, parse).watermark != lastMod ==>
      ReloadPlan(lastMod, stat, read, parse).result.Pass? && ReloadPlan(lastMod, stat, read, parse).install.Some?
  {
  }

  /** Two reloads against an unchanged file: once the first has rebuilt the
      store successfully, the second rebuilds nothing. */
  lemma ReloadTwiceRebuildsOnce(lastMod: int, stat: StatResult, read1: ReadResult, read2: ReadResult, parse: Parser)
    requires ReloadPlan(lastMod, stat, read1, parse).result.Pass?
    ensures ReloadPlan(ReloadPlan(lastMod, stat, read1, parse).watermark, stat, read2, parse) ==
      Plan(Pass, None, ReloadPlan(lastMod, stat, read1, parse).watermark)
  {
  }

  /** Two reloads with the same stat result, the first of which did not fail
      to parse, install a new store at most once between them. */
  lemma ReloadRebuildsAtMostOnce(lastMod: int, stat: StatResult, read1: ReadResult, read2: ReadResult, parse: Parser)
    requires ReloadPlan(lastMod, stat, read1, parse).result != Fail(ParseError)
    ensures !(ReloadPlan(lastMod, stat, read1, parse).install.Some? &&
              ReloadPlan(ReloadPlan(lastMod, stat, read1, parse).watermark, stat, read2, parse).install.Some?)
  {
  }

  /** A parse failure does not move the watermark, so the next reload of the
      same file reads, fails and empties the store again. */
  lemma ReloadRetriesAfterParseError(lastMod: int, stat: StatResult, read: ReadResult, parse: Parser)
    requires ReloadPlan(lastMod, stat, read, parse).result == Fail(ParseError)
    ensures ReloadPlan(ReloadPlan(lastMod, stat, read, parse).watermark, stat, read, parse) ==
      ReloadPlan(lastMod, stat, read, parse)
    ensures ReloadPlan(lastMod, stat, read, parse).install == Some([])
  {
  }

  /** The server state: the current store and the watermark. */
  class Srv {
    var db: InMem
    var lastMod: int

    ghost predicate Valid()
      reads this, db
    {
      db.Valid()
    }

    constructor (db: InMem, lastMod: int)
      requires db.Valid()
      ensures Valid()
      ensures this.db == db && this.lastMod == lastMod
    {
      this.db := db;
      this.lastMod := lastMod;
    }

    /** Replaces the store by a fresh one, then parses the blob and writes
        each record, skipping the ones Write refuses. A parse failure returns
        an error with the fresh store still empty. */
    method LoadDatabase(data: Bytes, parse: Parser) returns (err: Outcome<ServerError>)
      modifies this
      ensures fresh(db) && Valid()
      ensures lastMod == old(lastMod)
      ensures err == if parse(data).Some? then Pass else Fail(ParseError)
      ensures db.all == Loaded(parse(data))
    {
      var store := new InMem();
      db := store;
      var parsed := parse(data);
      if parsed.None? {
        return Fail(ParseError);
      }
      var rs := parsed.value;
      for i := 0 to |rs|
        modifies store
        invariant store.Valid()
        invariant store.all == Accepted(rs[..i])
      {
        var e := store.Write(rs[i]);
        AcceptedPrefix(rs, i);
      }
      assert rs[..|rs|] == rs;
      return Pass;
    }

    /** Stats the file; does nothing unless its modification time is after
        the watermark; otherwise reads and loads it, and advances the
        watermark only when the load succeeded. */
    method ReloadDatabase(stat: StatResult, read: ReadResult, parse: Parser) returns (err: Outcome<ServerError>)
      requires Valid()
      modifies this
      ensures Valid()
      ensures err == ReloadPlan(old(lastMod), stat, read, parse).result
      ensures lastMod == ReloadPlan(old(lastMod), stat, read, parse).watermark
      ensures ReloadPlan(old(lastMod), stat, read, parse).install.None? ==> db == old(db)
      ensures ReloadPlan(old(lastMod), stat, read, parse).install.Some? ==>
        fresh(db) && db.all == ReloadPlan(old(lastMod), stat, read, parse).install.value
    {
      if stat.StatFailed? {
        return Fail(StatError);
      }
      if !(stat.modTime > lastMod) {
        return Pass;
      }
      if read.ReadFailed? {
        return Fail(ReadError);
      }
      err := LoadDatabase(read.data, parse);
      if err.Fail? {
        return err;
      }
      lastMod := stat.modTime;
    }
  }

  /** Builds the server: the watermark is the file's modification time, or the
      zero time when it cannot be stated; then the initial load. A failed
      initial load returns no server. */
  method New(data: Bytes, stat: StatResult, parse: Parser) returns (s: Srv?, err: Outcome<ServerError>)
    ensures err == if parse(data).Some? then Pass else Fail(ParseError)
    ensures s != null <==> err.Pass?
    ensures s != null ==>
      fresh(s) && fresh(s.db) && s.Valid() &&
      s.lastMod == InitialWatermark(stat) && s.db.all == Accepted(parse(data).value)
  {
    var lastMod := ZeroTime;
    if stat.Stat? {
      lastMod := stat.modTime;
    }
    var store := new InMem();
    var out := new Srv(store, lastMod);
    err := out.LoadDatabase(data, parse);
    if err.Fail? {
      return null, err;
    }
    return out, Pass;
  }

  /** Two polls of a file whose first load succeeded: the store the first
      installed is still the one served after the second. */
  method PollTwice(s: Srv, stat: StatResult, read: ReadResult, parse: Parser)
    returns (first: Outcome<ServerError>, second: Outcome<ServerError>)
    requires s.Valid()
    modifies s
    ensures s.Valid()
    ensures first.Pass? && ReloadPlan(old(s.lastMod), stat, read, parse).install.Some? ==>
      && second.Pass?
      && s.lastMod == ReloadPlan(old(s.lastMod), stat, read, parse).watermark
      && s.db.all == ReloadPlan(old(s.lastMod), stat, read, parse).install.value
  {
    first := s.ReloadDatabase(stat, read, parse);
    second := s.ReloadDatabase(stat, read, parse);
  }
}
