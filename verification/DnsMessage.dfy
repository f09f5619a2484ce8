/**
 * A DNS message as the standard describes it: questions and resource records with
 * decoded names (RFC 1035 sections 4.1.1 to 4.1.4). A compressed name points to an
 * earlier one, which lies wholly in front of it and behind the header.
 */
module DnsMessage {
  import opened Bytes
  import opened Checksum

  type Label = seq<Byte>

  datatype Question = Question(name: seq<Label>, qtype: nat, qclass: nat)

  datatype Record = Record(name: seq<Label>, rtype: nat, rclass: nat, ttl: nat, rdata: seq<Byte>)

  /** The two last sections by their sizes only. */
  datatype Message = Message(questions: seq<Question>, answers: seq<Record>, authority: nat, additional: nat)

  /** Something read, and where it ends. */
  datatype Item<+T> = Item(value: T, end: nat)

  /** Where a compressed name goes on. */
  function Target(d: seq<Byte>, base: nat, p: nat): int
    requires p + 2 <= |d|
  {
    base + (d[p] as int - 0xC0) * 256 + d[p + 1]
  }

  /**
   * The rest of a name from p on, in a name that begins at start, in a message that begins
   * at base. All of it lies before bound.
   */
  function ReadName(d: seq<Byte>, base: nat, p: nat, start: nat, bound: nat): (r: Option<Item<seq<Label>>>)
    requires start <= p && bound <= |d|
    ensures r.Some? ==> p < r.value.end <= bound
    decreases bound, bound - p
  {
    if p >= bound then None
    else if d[p] == 0 then Some(Item([], p + 1))
    else if d[p] >= 0xC0 then
      if p + 2 > bound then None
      else
        var target := Target(d, base, p);
        if !(base + 12 <= target < start) then None
        else
          var earlier := ReadName(d, base, target, target, start);
          if earlier.None? then None else Some(Item(earlier.value.value, p + 2))
    else if d[p] >= 0x40 || p + 1 + d[p] > bound then None
    else
      var rest := ReadName(d, base, p + 1 + d[p], start, bound);
      if rest.None? then None else Some(Item([d[p + 1..p + 1 + d[p]]] + rest.value.value, rest.value.end))
  }

  function ReadQuestion(d: seq<Byte>, base: nat, p: nat): (r: Option<Item<Question>>)
    ensures r.Some? ==> p < r.value.end <= |d|
  {
    var n := ReadName(d, base, p, p, |d|);
    if n.None? || n.value.end + 4 > |d| then None
    else Some(Item(Question(n.value.value, Be(d, n.value.end), Be(d, n.value.end + 2)), n.value.end + 4))
  }

  function ReadRecord(d: seq<Byte>, base: nat, p: nat): (r: Option<Item<Record>>)
    ensures r.Some? ==> p < r.value.end <= |d|
  {
    var n := ReadName(d, base, p, p, |d|);
    if n.None? || n.value.end + 10 > |d| then None
    else
      var e := n.value.end;
      var length := Be(d, e + 8);
      if e + 10 + length > |d| then None
      else Some(Item(Record(n.value.value, Be(d, e), Be(d, e + 2), Be(d, e + 4) * 0x1_0000 + Be(d, e + 6), d[e + 10..e + 10 + length]),
                     e + 10 + length))
  }

  /** n questions from p on. */
  function ReadQuestions(d: seq<Byte>, base: nat, n: nat, p: nat): (r: Option<Item<seq<Question>>>)
    requires p <= |d|
    ensures r.Some? ==> p <= r.value.end <= |d| && |r.value.value| == n
  {
    if n == 0 then Some(Item([], p))
    else
      var q := ReadQuestion(d, base, p);
      if q.None? then None
      else
        var rest := ReadQuestions(d, base, n - 1, q.value.end);
        if rest.None? then None else Some(Item([q.value.value] + rest.value.value, rest.value.end))
  }

  /** n resource records from p on. */
  function ReadRecords(d: seq<Byte>, base: nat, n: nat, p: nat): (r: Option<Item<seq<Record>>>)
    requires p <= |d|
    ensures r.Some? ==> p <= r.value.end <= |d| && |r.value.value| == n
  {
    if n == 0 then Some(Item([], p))
    else
      var q := ReadRecord(d, base, p);
      if q.None? then None
      else
        var rest := ReadRecords(d, base, n - 1, q.value.end);
        if rest.None? then None else Some(Item([q.value.value] + rest.value.value, rest.value.end))
  }

  /** The message that begins at base. */
  function ReadMessage(d: seq<Byte>, base: nat): (r: Option<Message>)
    requires base + 12 <= |d|
  {
    var q := ReadQuestions(d, base, Be(d, base + 4), base + 12);
    if q.None? then None
    else
      var a := ReadRecords(d, base, Be(d, base + 6), q.value.end);
      if a.None? then None
      else Some(Message(q.value.value, a.value.value, Be(d, base + 8), Be(d, base + 10)))
  }

  // ---- reading looks only at what it reads

  lemma NamePointer(d: seq<Byte>, base: nat, p: nat, start: nat, a: nat)
    requires base + 12 <= start <= p < a <= |d| && d[p] >= 0xC0
    ensures ReadName(d, base, p, start, a) ==
            if p + 2 > a || !(base + 12 <= Target(d, base, p) < start) then None
            else var n := ReadName(d, base, Target(d, base, p), Target(d, base, p), start);
                 if n.None? then None else Some(Item(n.value.value, p + 2))
  {
    hide Target;
  }

  lemma NameLabel(d: seq<Byte>, base: nat, p: nat, start: nat, a: nat)
    requires start <= p < a <= |d| && 0 < d[p] < 0xC0
    ensures ReadName(d, base, p, start, a) ==
            if d[p] >= 0x40 || p + 1 + d[p] > a then None
            else var n := ReadName(d, base, p + 1 + d[p], start, a);
                 if n.None? then None else Some(Item([d[p + 1..p + 1 + d[p]]] + n.value.value, n.value.end))
  {
  }

  lemma NameRoot(d: seq<Byte>, base: nat, p: nat, start: nat, a: nat)
    requires start <= p && a <= |d|
    ensures p >= a ==> ReadName(d, base, p, start, a) == None
    ensures p < a && d[p] == 0 ==> ReadName(d, base, p, start, a) == Some(Item([], p + 1))
  {
  }

  lemma {:induction false} NameSame(d: seq<Byte>, e: seq<Byte>, base: nat, p: nat, start: nat, a: nat, b: nat)
    requires base + 12 <= start <= p && a <= |d| && ReadName(d, base, p, start, a).Some?
    requires ReadName(d, base, p, start, a).value.end <= b <= |e|
    requires forall j :: base + 12 <= j < ReadName(d, base, p, start, a).value.end ==> d[j] == e[j]
    ensures ReadName(e, base, p, start, b) == ReadName(d, base, p, start, a)
    decreases a, a - p
  {
    hide ReadName;
    NameRoot(d, base, p, start, a);
    NameRoot(e, base, p, start, b);
    assert d[p] == e[p];
    if d[p] >= 0xC0 {
      NamePointer(d, base, p, start, a);
      NamePointer(e, base, p, start, b);
      NameSame(d, e, base, Target(d, base, p), Target(d, base, p), start, start);
    } else if d[p] > 0 {
      NameLabel(d, base, p, start, a);
      NameLabel(e, base, p, start, b);
      NameSame(d, e, base, p + 1 + d[p], start, a, b);
      assert d[p + 1..p + 1 + d[p]] == e[p + 1..p + 1 + d[p]];
    }
  }

  lemma {:induction false} QuestionsReadSame(d: seq<Byte>, e: seq<Byte>, base: nat, n: nat, p: nat)
    requires base + 12 <= p <= |d| && ReadQuestions(d, base, n, p).Some?
    requires ReadQuestions(d, base, n, p).value.end <= |e|
    requires forall j :: base + 12 <= j < ReadQuestions(d, base, n, p).value.end ==> d[j] == e[j]
    ensures ReadQuestions(e, base, n, p) == ReadQuestions(d, base, n, p)
    decreases n
  {
    hide ReadName;
    if n > 0 {
      NameSame(d, e, base, p, p, |d|, |e|);
      QuestionsReadSame(d, e, base, n - 1, ReadQuestion(d, base, p).value.end);
    }
  }
}
