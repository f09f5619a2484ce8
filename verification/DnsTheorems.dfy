/** What flattening a DNS reply means for the message that a resolver reads from it. */
module DnsTheorems {
  import opened Bytes
  import opened Checksum
  import opened Dns
  import opened DnsMessage

  /** RFC 1035, section 3.2.2: type 5 is CNAME, type 1 a host address. */
  predicate IsCname(r: Record) {
    r.rtype == 5
  }

  predicate IsAddress(r: Record) {
    r.rtype == 1 && |r.rdata| == 4
  }

  predicate HasCname(rs: seq<Record>) {
    exists i :: 0 <= i < |rs| && IsCname(rs[i])
  }

  /** The data of the first address record. */
  function FirstAddress(rs: seq<Record>): (r: Option<seq<Byte>>)
    ensures match r
            case None => forall i :: 0 <= i < |rs| ==> !IsAddress(rs[i])
            case Some(a) => exists i :: 0 <= i < |rs| && IsAddress(rs[i]) && rs[i].rdata == a && forall j :: 0 <= j < i ==> !IsAddress(rs[j])
  {
    if rs == [] then None
    else if IsAddress(rs[0]) then Some(rs[0].rdata)
    else
      var r := FirstAddress(rs[1..]);
      assert forall i :: 0 < i < |rs| ==> rs[i] == rs[1..][i - 1];
      assert r.Some? ==> exists i :: 0 < i < |rs| && IsAddress(rs[i]) && rs[i].rdata == r.value && forall j :: 0 <= j < i ==> !IsAddress(rs[j]) by {
        if r.Some? {
          var k :| 0 <= k < |rs[1..]| && IsAddress(rs[1..][k]) && rs[1..][k].rdata == r.value && forall j :: 0 <= j < k ==> !IsAddress(rs[1..][j]);
          assert rs[k + 1] == rs[1..][k];
        }
      }
      r
  }

  // ---- the walk of the code reads the records

  lemma {:induction false} SkipIsName(d: seq<Byte>, base: nat, p: nat, start: nat)
    requires start <= p && ReadName(d, base, p, start, |d|).Some?
    ensures SkipName(d, p, |d|) == ReadName(d, base, p, start, |d|).value.end
    decreases |d| - p
  {
    if 0 < d[p] < 0xC0 {
      SkipIsName(d, base, p + 1 + d[p], start);
    }
  }

  lemma {:induction false} QuestionsAreSkipped(d: seq<Byte>, base: nat, n: nat, p: nat)
    requires p <= |d| && ReadQuestions(d, base, n, p).Some?
    ensures Questions(d, n, p, |d|) == Some(ReadQuestions(d, base, n, p).value.end)
    decreases n
  {
    hide ReadName, SkipName;
    if n > 0 {
      SkipIsName(d, base, p, p);
      QuestionsAreSkipped(d, base, n - 1, ReadQuestion(d, base, p).value.end);
    }
  }

  /** What the walk makes of one record. */
  function NoteRecord(s: Seen, r: Record): Seen {
    Seen(s.cname || IsCname(r), if IsAddress(r) && s.addr.None? then Some(r.rdata) else s.addr)
  }

  lemma RecordIsNoted(d: seq<Byte>, base: nat, p: nat, s: Seen)
    requires ReadRecord(d, base, p).Some?
    ensures var q := SkipName(d, p, |d|);
            && p < |d| && q + 10 <= |d|
            && q + 10 + Be(d, q + 8) == ReadRecord(d, base, p).value.end
            && Note(s, d, q, |d|) == NoteRecord(s, ReadRecord(d, base, p).value.value)
  {
    SkipIsName(d, base, p, p);
  }

  lemma WalkOne(d: seq<Byte>, base: nat, n: nat, p: nat, s: Seen)
    requires n > 0 && ReadRecord(d, base, p).Some?
    ensures var r := ReadRecord(d, base, p).value; Walk(d, n, p, |d|, s) == Walk(d, n - 1, r.end, |d|, NoteRecord(s, r.value))
  {
    hide ReadRecord, SkipName, Note, NoteRecord;
    RecordIsNoted(d, base, p, s);
  }

  lemma RecordsOne(d: seq<Byte>, base: nat, n: nat, p: nat)
    requires n > 0 && p <= |d| && ReadRecords(d, base, n, p).Some?
    ensures ReadRecord(d, base, p).Some? && ReadRecords(d, base, n - 1, ReadRecord(d, base, p).value.end).Some?
    ensures ReadRecords(d, base, n, p).value.value ==
            [ReadRecord(d, base, p).value.value] + ReadRecords(d, base, n - 1, ReadRecord(d, base, p).value.end).value.value
  {
    hide ReadRecord;
  }

  /** The walk over readable records sees whether one is a CNAME, and the first address. */
  lemma {:induction false} WalkReadsRecords(d: seq<Byte>, base: nat, n: nat, p: nat, s: Seen)
    requires p <= |d| && ReadRecords(d, base, n, p).Some?
    ensures var rs := ReadRecords(d, base, n, p).value.value;
            Walk(d, n, p, |d|, s) == Seen(s.cname || HasCname(rs), if s.addr.Some? then s.addr else FirstAddress(rs))
    decreases n
  {
    hide ReadRecord, ReadRecords, SkipName, Note, Walk, HasCname, FirstAddress, IsCname, IsAddress;
    if n > 0 {
      RecordsOne(d, base, n, p);
      var r := ReadRecord(d, base, p).value;
      var rs := ReadRecords(d, base, n, p).value.value;
      assert rs[0] == r.value && rs[1..] == ReadRecords(d, base, n - 1, r.end).value.value;
      WalkOne(d, base, n, p, s);
      WalkReadsRecords(d, base, n - 1, r.end, NoteRecord(s, r.value));
      SeenMore(rs);
    } else {
      WalkNone(d, base, p, s);
    }
  }

  lemma WalkNone(d: seq<Byte>, base: nat, p: nat, s: Seen)
    requires p <= |d|
    ensures Walk(d, 0, p, |d|, s) == s && ReadRecords(d, base, 0, p) == Some(Item([], p))
    ensures !HasCname([]) && FirstAddress([]) == None
  {
  }

  lemma SeenMore(rs: seq<Record>)
    requires rs != []
    ensures HasCname(rs) <==> IsCname(rs[0]) || HasCname(rs[1..])
    ensures FirstAddress(rs) == if IsAddress(rs[0]) then Some(rs[0].rdata) else FirstAddress(rs[1..])
  {
    if HasCname(rs[1..]) {
      var i :| 0 <= i < |rs[1..]| && IsCname(rs[1..][i]);
      assert IsCname(rs[i + 1]);
    }
    if HasCname(rs) && !IsCname(rs[0]) {
      var i :| 0 <= i < |rs| && IsCname(rs[i]);
      assert rs[1..][i - 1] == rs[i];
    }
  }

  /** The message behind the IP and UDP headers of a datagram. */
  function MessageOf(d: seq<Byte>): Option<Message>
    requires HasDns(d)
  {
    ReadMessage(d, DnsAt(d))
  }

  /** A readable reply is rewritten if and only if it has a CNAME record and an address record. */
  lemma RewrittenIff(d: seq<Byte>)
    requires HasDns(d) && MessageOf(d).Some?
    ensures var rs := MessageOf(d).value.answers;
            && (Confusing(d) <==> HasCname(rs) && FirstAddress(rs).Some?)
            && (Confusing(d) ==> Answers(d).addr == FirstAddress(rs))
  {
    hide ReadQuestions, ReadRecords, Walk, Questions;
    var base := DnsAt(d);
    var q := ReadQuestions(d, base, Be(d, base + 4), base + 12).value;
    QuestionsAreSkipped(d, base, Be(d, base + 4), base + 12);
    WalkReadsRecords(d, base, Be(d, base + 6), q.end, NOTHING);
  }

  // ---- the rebuilt message

  /** The question section of a datagram, if it is readable. */
  function QuestionsOf(d: seq<Byte>): Option<Item<seq<Question>>>
    requires HasDns(d)
  {
    ReadQuestions(d, DnsAt(d), Be(d, DnsAt(d) + 4), DnsAt(d) + 12)
  }

  /** A pointer to offset 12, after n questions: the first question's name, unless there is no question. */
  lemma OwnerIsQuestion(o: seq<Byte>, base: nat, n: nat)
    requires base + 12 <= |o| && ReadQuestions(o, base, n, base + 12).Some?
    requires var q := ReadQuestions(o, base, n, base + 12).value.end; q + 2 <= |o| && o[q] == 0xC0 && o[q + 1] == 0x0C
    ensures var q := ReadQuestions(o, base, n, base + 12).value;
            ReadName(o, base, q.end, q.end, |o|) == if n == 0 then None else Some(Item(q.value[0].name, q.end + 2))
  {
    if n > 0 {
      FirstName(o, base, n);
      PointsBack(o, base, ReadQuestions(o, base, n, base + 12).value.end);
    }
  }

  lemma PointsBack(o: seq<Byte>, base: nat, q: nat)
    requires base + 12 < q && q + 2 <= |o| && o[q] == 0xC0 && o[q + 1] == 0x0C
    ensures ReadName(o, base, q, q, |o|) ==
            var n := ReadName(o, base, base + 12, base + 12, q);
            if n.None? then None else Some(Item(n.value.value, q + 2))
  {
  }

  lemma FirstName(o: seq<Byte>, base: nat, n: nat)
    requires base + 12 <= |o| && n > 0 && ReadQuestions(o, base, n, base + 12).Some?
    ensures var q := ReadQuestions(o, base, n, base + 12).value;
            && base + 12 < q.end
            && ReadName(o, base, base + 12, base + 12, q.end).Some?
            && ReadName(o, base, base + 12, base + 12, q.end).value.value == q.value[0].name
  {
    hide ReadName;
    NameSame(o, o, base, base + 12, base + 12, |o|, ReadQuestions(o, base, n, base + 12).value.end);
  }

  /** The rebuilt answer as a record. */
  lemma AnswerRecord(o: seq<Byte>, base: nat, n: nat, addr: seq<Byte>)
    requires base + 12 <= |o| && ReadQuestions(o, base, n, base + 12).Some? && |addr| == 4
    requires var q := ReadQuestions(o, base, n, base + 12).value.end; |o| == q + 16 && o[q..] == AnswerBytes(addr)
    ensures var q := ReadQuestions(o, base, n, base + 12).value;
            ReadRecord(o, base, q.end) ==
            if n == 0 then None else Some(Item(Record(q.value[0].name, 1, 1, 60, addr), |o|))
  {
    hide ReadName, ReadQuestions, AnswerBytes;
    AnswerFields(o, ReadQuestions(o, base, n, base + 12).value.end, addr);
    OwnerIsQuestion(o, base, n);
  }

  lemma AnswerFields(o: seq<Byte>, q: nat, addr: seq<Byte>)
    requires |o| == q + 16 && |addr| == 4 && o[q..] == AnswerBytes(addr)
    ensures Be(o, q + 2) == 1 && Be(o, q + 4) == 1 && Be(o, q + 6) * 0x1_0000 + Be(o, q + 8) == 60
    ensures Be(o, q + 10) == 4 && o[q + 12..q + 16] == addr && o[q] == 0xC0 && o[q + 1] == 0x0C
  {
    var a := AnswerBytes(addr);
    assert forall j :: 0 <= j < 16 ==> o[q + j] == o[q..][j] == a[j];
    assert o[q] == a[0] && o[q + 1] == a[1];
    assert o[q + 2] == a[2] && o[q + 3] == a[3] && o[q + 4] == a[4] && o[q + 5] == a[5];
    assert o[q + 6] == a[6] && o[q + 7] == a[7] && o[q + 8] == a[8] && o[q + 9] == a[9];
    assert o[q + 10] == a[10] && o[q + 11] == a[11];
    assert o[q + 12..q + 16] == a[12..16] == addr;
  }

  lemma RebuiltBytes(d: seq<Byte>, o: seq<Byte>, q: nat, addr: seq<Byte>)
    requires HasDns(d) && Rebuilt(d, o, q, addr)
    ensures var base := DnsAt(d);
            && base + 12 <= q && |o| == q + 16 && |addr| == 4 && o[q..] == AnswerBytes(addr) && DnsAt(o) == base
            && Be(o, base + 4) == Be(d, base + 4) && Be(o, base + 6) == 1 && Be(o, base + 8) == 0 && Be(o, base + 10) == 0
            && q <= |d| && forall j :: base + 12 <= j < q ==> d[j] == o[j]
  {
    hide AnswerBytes;
    var base := DnsAt(d);
    assert o[0] == d[0] && o[base + 4] == d[base + 4] && o[base + 5] == d[base + 5];
  }

  /**
   * What a resolver reads from a rewritten reply: the same questions and, owned by the name
   * of the first one, a single address record. Without a question the answer's name points
   * to itself and the message cannot be read.
   */
  lemma FlattenedMessage(d: seq<Byte>, o: seq<Byte>)
    requires Confusing(d) && Flattened(d, o) && QuestionsOf(d).Some?
    ensures HasDns(o) && MessageOf(o) ==
            var qs := QuestionsOf(d).value.value;
            if qs == [] then None
            else Some(Message(qs, [Record(qs[0].name, 1, 1, 60, Answers(d).addr.value)], 0, 0))
  {
    hide ReadRecord, ReadRecords, ReadQuestions, AnswerBytes, Walk, Verifies, PseudoHeader, Rebuilt, Be;
    var base, addr := DnsAt(d), Answers(d).addr.value;
    var n := Be(d, base + 4);
    var q := QuestionsOf(d).value;
    QuestionsAreSkipped(d, base, n, base + 12);
    RebuiltBytes(d, o, q.end, addr);
    QuestionsReadSame(d, o, base, n, base + 12);
    AnswerRecord(o, base, n, addr);
    OneRecord(o, base, q.end);
  }

  lemma OneRecord(o: seq<Byte>, base: nat, p: nat)
    requires p <= |o|
    ensures ReadRecords(o, base, 1, p) == match ReadRecord(o, base, p) case None => None case Some(r) => Some(Item([r.value], r.end))
  {
    var r := ReadRecord(o, base, p);
    if r.Some? {
      assert ReadRecords(o, base, 0, r.value.end) == Some(Item([], r.value.end));
      assert [r.value.value] + [] == [r.value.value];
    }
  }

  /** For a readable reply: the address is that of its first address record, and the result can be read if and only if it asks something. */
  lemma FlattenedReply(d: seq<Byte>, o: seq<Byte>)
    requires Confusing(d) && Flattened(d, o) && MessageOf(d).Some?
    ensures HasDns(o)
    ensures MessageOf(o).Some? <==> MessageOf(d).value.questions != []
    ensures MessageOf(o).Some? ==>
              var m, r := MessageOf(d).value, MessageOf(o).value;
              && r.questions == m.questions && |r.answers| == 1
              && r.answers[0].name == m.questions[0].name && IsAddress(r.answers[0])
              && FirstAddress(m.answers) == Some(r.answers[0].rdata)
  {
    hide ReadRecords, Flattened;
    RewrittenIff(d);
    FlattenedMessage(d, o);
    AddressIsFour(d);
  }

  lemma AddressIsFour(d: seq<Byte>)
    requires Confusing(d)
    ensures |Answers(d).addr.value| == 4
  {
    AddressLength(d, Be(d, DnsAt(d) + 6), QuestionEnd(d).value, |d|, NOTHING);
  }
}
