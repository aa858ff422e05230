/** The bytes of the log file (storage/wal/wal.go). */
module WalCodec {
  import opened Types
  import opened ByteOrder

  const HEADER_SIZE: nat := 31

  /** The fields of a record have the widths of the code; the operation is one byte. */
  datatype LogRecord = LogRecord(lsn: nat, txn: nat, page: nat, op: byte, prev: nat, redo: seq<byte>)

  predicate InRange(r: LogRecord) {
    r.lsn < Pow256(8) && r.txn < Pow256(8) && r.page < Pow256(4) && r.prev < Pow256(8)
  }

  /** Records whose redo data is as long as the two-byte size field can say. */
  predicate Encodable(r: LogRecord) {
    InRange(r) && |r.redo| < 0x1_0000
  }

  ghost predicate AllEncodable(rs: seq<LogRecord>) {
    forall i | 0 <= i < |rs| :: Encodable(rs[i])
  }

  // ---- The format ----

  /** The size field holds the length modulo 65536. */
  function Header(r: LogRecord): (s: seq<byte>)
    requires InRange(r)
    ensures |s| == HEADER_SIZE
  {
    Widths();
    PutUint(r.lsn, 8) + PutUint(r.txn, 8) + PutUint(r.page, 4) + [r.op] + PutUint(r.prev, 8) + PutUint(|r.redo| % 0x1_0000, 2)
  }

  function Encode(r: LogRecord): (s: seq<byte>)
    requires InRange(r)
    ensures |s| == HEADER_SIZE + |r.redo|
  {
    Header(r) + r.redo
  }

  function EncodeAll(rs: seq<LogRecord>): seq<byte>
    requires AllEncodable(rs)
  {
    if rs == [] then [] else Encode(rs[0]) + EncodeAll(rs[1..])
  }

  /** The outcome of reading one record: a record and the bytes it took, a clean end, or an error. */
  datatype One = Got(rec: LogRecord, size: nat) | End | Bad

  function FromHeader(h: seq<byte>, redo: seq<byte>): LogRecord
    requires |h| == HEADER_SIZE
  {
    LogRecord(GetUint(h[0..8]), GetUint(h[8..16]), GetUint(h[16..20]), h[20], GetUint(h[21..29]), redo)
  }

  function RedoSize(h: seq<byte>): nat
    requires |h| == HEADER_SIZE
  {
    GetUint(h[29..31])
  }

  /** A short header ends the log; redo data ends it when none of it is there, and is an error when some is. */
  function DecodeOne(s: seq<byte>): (r: One)
    ensures r.Got? ==> HEADER_SIZE <= r.size <= |s|
  {
    if |s| < HEADER_SIZE then End
    else
      var n := RedoSize(s[..HEADER_SIZE]);
      if |s| >= HEADER_SIZE + n then Got(FromHeader(s[..HEADER_SIZE], s[HEADER_SIZE..HEADER_SIZE + n]), HEADER_SIZE + n)
      else if |s| == HEADER_SIZE then End
      else Bad
  }

  function ReadAll(s: seq<byte>): Option<seq<LogRecord>>
    decreases |s|
  {
    match DecodeOne(s)
    case End => Some([])
    case Bad => None
    case Got(r, n) =>
      match ReadAll(s[n..])
      case None => None
      case Some(rs) => Some([r] + rs)
  }

  // ---- The code ----

  method EncodeRecord(r: LogRecord) returns (s: seq<byte>)
    requires InRange(r)
    ensures s == Encode(r)
  {
    var size := 8 + 8 + 4 + 1 + 8 + 2 + |r.redo|;
    var buf := new byte[size](i => 0);
    Widths();
    PutUintAt(buf, 0, 8, r.lsn);
    PutUintAt(buf, 8, 8, r.txn);
    PutUintAt(buf, 16, 4, r.page);
    ghost var three := buf[..20];
    assert three == PutUint(r.lsn, 8) + PutUint(r.txn, 8) + PutUint(r.page, 4);
    buf[20] := r.op;
    assert buf[..21] == three + [r.op];
    PutUintAt(buf, 21, 8, r.prev);
    PutUintAt(buf, 29, 2, |r.redo| % 0x1_0000);
    assert buf[..31] == Header(r);
    CopyAt(buf, 31, r.redo);
    s := buf[..];
  }

  datatype ReadError = NoError | EOF | UnexpectedEOF

  /** A file being read. */
  class Reader {
    const data: seq<byte>
    var pos: nat

    constructor (data: seq<byte>)
      ensures this.data == data && pos == 0
    {
      this.data, pos := data, 0;
    }

    ghost predicate Valid()
      reads this
    {
      pos <= |data|
    }

    /** io.ReadFull: no bytes at all is EOF, fewer than asked for is UnexpectedEOF. */
    method ReadFull(n: nat) returns (b: seq<byte>, err: ReadError)
      requires Valid()
      modifies this
      ensures Valid() && pos >= old(pos)
      ensures err == NoError <==> old(pos) + n <= |data|
      ensures err == NoError ==> b == data[old(pos)..old(pos) + n] && pos == old(pos) + n
      ensures err == EOF <==> n > 0 && old(pos) == |data|
    {
      if pos + n <= |data| {
        b := data[pos..pos + n];
        pos := pos + n;
        err := NoError;
      } else {
        b, err := [], if pos == |data| then EOF else UnexpectedEOF;
        pos := |data|;
      }
    }

    method DecodeRecord() returns (r: One)
      requires Valid()
      modifies this
      ensures Valid() && r == DecodeOne(data[old(pos)..]) && pos >= old(pos)
      ensures r.Got? ==> pos == old(pos) + r.size
    {
      ghost var s := data[pos..];
      var fixed, err := ReadFull(HEADER_SIZE);
      if err != NoError { return End; }
      assert fixed == s[..HEADER_SIZE];
      var redoSize := RedoSize(fixed);
      var redo := [];
      if redoSize > 0 {
        ghost var from := pos;
        redo, err := ReadFull(redoSize);
        if err == EOF { return End; }
        if err != NoError { return Bad; }
        assert redo == s[HEADER_SIZE..HEADER_SIZE + redoSize];
      }
      return Got(FromHeader(fixed, redo), HEADER_SIZE + redoSize);
    }
  }

  /** What was read so far, followed by what the rest reads as. */
  function Joined(got: seq<LogRecord>, rest: Option<seq<LogRecord>>): Option<seq<LogRecord>> {
    if rest == None then None else Some(got + rest.value)
  }

  lemma JoinedMore(got: seq<LogRecord>, rec: LogRecord, rest: Option<seq<LogRecord>>)
    ensures Joined(got, Joined([rec], rest)) == Joined(got + [rec], rest)
  {
    if rest != None { assert got + ([rec] + rest.value) == got + [rec] + rest.value; }
  }

  lemma JoinedEnds(got: seq<LogRecord>, rest: Option<seq<LogRecord>>)
    ensures Joined([], rest) == rest && Joined(got, Some([])) == Some(got)
  {
    if rest != None { assert [] + rest.value == rest.value; }
    assert got + [] == got;
  }

  method ReadRecords(file: seq<byte>) returns (records: Option<seq<LogRecord>>)
    ensures records == ReadAll(file)
  {
    var r := new Reader(file);
    var got: seq<LogRecord> := [];
    assert file[0..] == file;
    JoinedEnds(got, ReadAll(file));
    while true
      invariant r.Valid() && r.data == file
      invariant ReadAll(file) == Joined(got, ReadAll(file[r.pos..]))
      decreases |file| - r.pos
    {
      ghost var from := r.pos;
      JoinedEnds(got, None);
      var one := r.DecodeRecord();
      match one
      case End => return Some(got);
      case Bad => return None;
      case Got(rec, n) =>
        assert file[from..][n..] == file[r.pos..];
        JoinedMore(got, rec, ReadAll(file[r.pos..]));
        got := got + [rec];
    }
  }

  // ---- Round trips and torn tails ----

  lemma SixParts(a: seq<byte>, b: seq<byte>, c: seq<byte>, d: seq<byte>, e: seq<byte>, f: seq<byte>)
    requires |a| == |b| == |e| == 8 && |c| == 4 && |d| == 1 && |f| == 2
    ensures var h := a + b + c + d + e + f;
            h[0..8] == a && h[8..16] == b && h[16..20] == c && h[20..21] == d && h[21..29] == e && h[29..31] == f
  {
    var h := a + b + c + d + e + f;
    assert h[0..8] == a;
    assert h[8..16] == b;
    assert h[16..20] == c;
    assert h[20..21] == d;
    assert h[21..29] == e;
    assert h[29..31] == f;
  }

  lemma {:induction false} HeaderFields(r: LogRecord)
    requires InRange(r)
    ensures RedoSize(Header(r)) == |r.redo| % 0x1_0000
    ensures FromHeader(Header(r), r.redo) == r
  {
    Widths();
    var h := Header(r);
    SixParts(PutUint(r.lsn, 8), PutUint(r.txn, 8), PutUint(r.page, 4), [r.op], PutUint(r.prev, 8), PutUint(|r.redo| % 0x1_0000, 2));
    hide PutUint, GetUint;
    assert h[20] == h[20..21][0] == r.op;
    GetPut(r.lsn, 8);
    GetPut(r.txn, 8);
    GetPut(r.page, 4);
    GetPut(r.prev, 8);
    GetPut(|r.redo| % 0x1_0000, 2);
  }

  /** A record reads back exactly when its length fits the size field. */
  lemma DecodeEncode(r: LogRecord, rest: seq<byte>)
    requires InRange(r)
    ensures DecodeOne(Encode(r) + rest) == Got(r, |Encode(r)|) <==> |r.redo| < 0x1_0000
  {
    HeaderFields(r);
    var s := Encode(r) + rest;
    assert s[..HEADER_SIZE] == Header(r);
    if |r.redo| < 0x1_0000 {
      assert s[HEADER_SIZE..HEADER_SIZE + |r.redo|] == r.redo;
    }
  }

  /** The bytes of a record, cut short: an error just when some but not all of the redo data is there. */
  lemma DecodeCut(r: LogRecord, cut: nat)
    requires Encodable(r) && cut < |Encode(r)|
    ensures DecodeOne(Encode(r)[..cut]) == if cut > HEADER_SIZE then Bad else End
  {
    HeaderFields(r);
    if cut >= HEADER_SIZE { assert Encode(r)[..cut][..HEADER_SIZE] == Header(r); }
  }

  /** How many whole records the first `cut` bytes hold. */
  function Whole(rs: seq<LogRecord>, cut: nat): (n: nat)
    requires AllEncodable(rs)
    ensures n <= |rs|
  {
    if rs == [] || cut < |Encode(rs[0])| then 0 else 1 + Whole(rs[1..], cut - |Encode(rs[0])|)
  }

  lemma {:induction false} WholeIsMost(rs: seq<LogRecord>, cut: nat)
    requires AllEncodable(rs)
    ensures var n := Whole(rs, cut);
            |EncodeAll(rs[..n])| <= cut && (n < |rs| ==> cut < |EncodeAll(rs[..n + 1])|)
  {
    var n := Whole(rs, cut);
    if rs != [] && cut >= |Encode(rs[0])| {
      WholeIsMost(rs[1..], cut - |Encode(rs[0])|);
      assert rs[..n][1..] == rs[1..][..n - 1];
      if n < |rs| { assert rs[..n + 1][1..] == rs[1..][..n]; }
    } else if rs != [] {
      assert rs[..1][1..] == [];
    }
  }

  /** Whether the cut falls inside the redo data of a record, after at least one byte of it. */
  predicate CutsRedo(rs: seq<LogRecord>, cut: nat)
    requires AllEncodable(rs)
  {
    rs != [] && if cut < |Encode(rs[0])| then cut > HEADER_SIZE else CutsRedo(rs[1..], cut - |Encode(rs[0])|)
  }

  /**
    Any prefix of a log reads back as its whole records and nothing else, or fails: it fails exactly
    when it ends with some but not all of a record's redo data.
   */
  lemma {:induction false} ReadPrefix(rs: seq<LogRecord>, cut: nat)
    requires AllEncodable(rs) && cut <= |EncodeAll(rs)|
    ensures ReadAll(EncodeAll(rs)[..cut]) == if CutsRedo(rs, cut) then None else Some(rs[..Whole(rs, cut)])
  {
    hide Encode, DecodeOne;
    NoLog();
    if rs != [] {
      var s, n, more := EncodeAll(rs)[..cut], |Encode(rs[0])|, EncodeAll(rs[1..]);
      if cut < n {
        assert s == Encode(rs[0])[..cut];
        DecodeCut(rs[0], cut);
      } else {
        assert s == Encode(rs[0]) + more[..cut - n];
        DecodeEncode(rs[0], more[..cut - n]);
        assert s[n..] == more[..cut - n];
        ReadPrefix(rs[1..], cut - n);
        var k := Whole(rs[1..], cut - n);
        assert rs[..k + 1] == [rs[0]] + rs[1..][..k];
      }
    }
  }

  lemma NoLog()
    ensures DecodeOne([]) == End
  {}

  lemma {:induction false} WholeOfAll(rs: seq<LogRecord>)
    requires AllEncodable(rs)
    ensures Whole(rs, |EncodeAll(rs)|) == |rs| && !CutsRedo(rs, |EncodeAll(rs)|)
  {
    if rs != [] { WholeOfAll(rs[1..]); }
  }

  /** Reading gives back exactly the records that were written. */
  lemma ReadWritten(rs: seq<LogRecord>)
    requires AllEncodable(rs)
    ensures ReadAll(EncodeAll(rs)) == Some(rs)
  {
    WholeOfAll(rs);
    ReadPrefix(rs, |EncodeAll(rs)|);
    assert EncodeAll(rs)[..|EncodeAll(rs)|] == EncodeAll(rs) && rs[..|rs|] == rs;
  }

  lemma {:induction false} EncodeAppend(a: seq<LogRecord>, b: seq<LogRecord>)
    requires AllEncodable(a) && AllEncodable(b)
    ensures AllEncodable(a + b) && EncodeAll(a + b) == EncodeAll(a) + EncodeAll(b)
  {
    hide Encode, Encodable;
    if a == [] {
      assert a + b == b;
    } else {
      assert (a + b)[1..] == a[1..] + b;
      EncodeAppend(a[1..], b);
    }
  }

  /**
    A flush torn at any byte: the earlier records are read and as many new ones as are whole, or, if it
    is torn inside redo data, no record at all.
   */
  lemma TornFlush(kept: seq<LogRecord>, added: seq<LogRecord>, cut: nat)
    requires AllEncodable(kept) && AllEncodable(added) && cut <= |EncodeAll(added)|
    ensures ReadAll(EncodeAll(kept) + EncodeAll(added)[..cut]) ==
            if CutsRedo(added, cut) then None else Some(kept + added[..Whole(added, cut)])
  {
    hide Encode, EncodeAll, ReadAll, Whole, CutsRedo;
    EncodeAppend(kept, added);
    var n := |EncodeAll(kept)| + cut;
    assert EncodeAll(kept + added)[..n] == EncodeAll(kept) + EncodeAll(added)[..cut];
    ReadPrefix(kept + added, n);
    WholeAppend(kept, added, cut);
    assert (kept + added)[..|kept| + Whole(added, cut)] == kept + added[..Whole(added, cut)];
  }

  lemma {:induction false} WholeAppend(a: seq<LogRecord>, b: seq<LogRecord>, cut: nat)
    requires AllEncodable(a) && AllEncodable(b) && AllEncodable(a + b)
    ensures Whole(a + b, |EncodeAll(a)| + cut) == |a| + Whole(b, cut)
    ensures CutsRedo(a + b, |EncodeAll(a)| + cut) <==> CutsRedo(b, cut)
  {
    hide Encode;
    if a == [] {
      assert a + b == b;
    } else {
      assert (a + b)[1..] == a[1..] + b;
      WholeAppend(a[1..], b, cut);
    }
  }

  // ---- The log as an object ----

  ghost predicate Increasing(rs: seq<LogRecord>) {
    forall i, j :: 0 <= i < j < |rs| ==> rs[i].lsn < rs[j].lsn
  }

  /** scanNextLSN; an empty log starts at zero. */
  method ScanNextLsn(file: seq<byte>) returns (lsn: nat)
    requires ReadAll(file).Some?
    ensures var rs := ReadAll(file).value; lsn == if rs == [] then 0 else rs[|rs| - 1].lsn + 1
  {
    var read := ReadRecords(file);
    var rs := read.value;
    return if |rs| > 0 then rs[|rs| - 1].lsn + 1 else 0;
  }

  ghost predicate Below(rs: seq<LogRecord>, lsn: nat) {
    forall i | 0 <= i < |rs| :: rs[i].lsn < lsn
  }

  lemma MoreRecords(a: seq<LogRecord>, b: seq<LogRecord>, r: LogRecord)
    requires Increasing(a + b) && Below(a + b, r.lsn)
    ensures Increasing(a + (b + [r])) && Below(a + (b + [r]), r.lsn + 1)
  {
    assert a + (b + [r]) == a + b + [r];
  }

  lemma MoreBytes(rs: seq<LogRecord>, r: LogRecord)
    requires AllEncodable(rs) && Encodable(r)
    ensures AllEncodable(rs + [r]) && EncodeAll(rs + [r]) == EncodeAll(rs) + Encode(r)
  {
    EncodeAppend(rs, [r]);
    assert EncodeAll([r]) == Encode(r);
  }

  class Log {
    var file: seq<byte>
    var nextLsn: nat
    var buf: seq<byte>
    /** The records in the file and in the buffer. */
    ghost var durable: seq<LogRecord>
    ghost var pending: seq<LogRecord>

    ghost predicate Valid()
      reads this
    {
      && AllEncodable(durable) && file == EncodeAll(durable)
      && AllEncodable(pending) && buf == EncodeAll(pending)
      && Increasing(durable + pending)
      && Below(durable + pending, nextLsn)
    }

    /** Opening a file that ends with a whole record. */
    constructor (file: seq<byte>, ghost records: seq<LogRecord>)
      requires AllEncodable(records) && file == EncodeAll(records) && Increasing(records)
      ensures Valid() && durable == records && pending == [] && this.file == file
      ensures nextLsn == if records == [] then 0 else records[|records| - 1].lsn + 1
    {
      this.file, this.buf := file, [];
      this.durable, this.pending := records, [];
      ReadWritten(records);
      var lsn := ScanNextLsn(file);
      nextLsn := lsn;
      assert records + [] == records;
    }

    /** The record gets the next LSN, whatever LSN it came with. */
    method Append(rec: LogRecord) returns (lsn: nat)
      requires Valid() && Encodable(rec) && nextLsn < Pow256(8)
      modifies this
      ensures Valid() && lsn == old(nextLsn) && nextLsn == lsn + 1
      ensures durable == old(durable) && file == old(file) && pending == old(pending) + [rec.(lsn := lsn)]
    {
      hide Encode, EncodeAll, AllEncodable, Increasing, Below;
      lsn := nextLsn;
      nextLsn := nextLsn + 1;
      var stamped := rec.(lsn := lsn);
      var bytes := EncodeRecord(stamped);
      buf := buf + bytes;
      MoreBytes(pending, stamped);
      MoreRecords(durable, pending, stamped);
      pending := pending + [stamped];
    }

    method Flush()
      requires Valid()
      modifies this
      ensures Valid() && durable == old(durable) + old(pending) && pending == [] && nextLsn == old(nextLsn)
    {
      if |buf| == 0 {
        NoBytes(pending);
        assert durable + pending == durable;
        return;
      }
      EncodeAppend(durable, pending);
      file := file + buf;
      buf := [];
      assert durable + pending + [] == durable + pending;
      durable, pending := durable + pending, [];
    }

    method Records() returns (records: Option<seq<LogRecord>>)
      requires Valid()
      ensures records == Some(durable) && Increasing(durable)
    {
      ReadWritten(durable);
      assert forall i | 0 <= i < |durable| :: durable[i] == (durable + pending)[i];
      records := ReadRecords(file);
    }
  }

  lemma NoBytes(rs: seq<LogRecord>)
    requires AllEncodable(rs) && EncodeAll(rs) == []
    ensures rs == []
  {}
}
