/** Content accumulated by tpAddData and handed over by tpReport. */
module Content {
  import opened Wrappers
  import opened CTypes
  import opened CStrings
  import opened Collections

  const TP_SDK_SUCCESS := 0
  const TP_SDK_FAILURE := -1
  const TP_SDK_INVALID_PARAMETER := -14

  /** A contentInstance request: its content, whether it was the accumulated one, whether it passed
      its checks, and the result code of publishing it. */
  datatype Request = Request(content: string, accumulated: bool, accepted: bool, published: int)

  /** Published: the checks were passed and the publishing code was 0. */
  predicate IsSent(r: Request) {
    r.accepted && r.published == TP_SDK_SUCCESS
  }

  /** The accumulated content of all requests, in order. */
  function HandedOver(rs: seq<Request>): string {
    if rs == [] then "" else HandedOver(rs[..|rs| - 1]) + if rs[|rs| - 1].accumulated then rs[|rs| - 1].content else ""
  }

  /** The part of it that was published. */
  function Sent(rs: seq<Request>): string {
    if rs == [] then ""
    else
      var last := rs[|rs| - 1];
      Sent(rs[..|rs| - 1]) + if last.accumulated && IsSent(last) then last.content else ""
  }

  lemma OneMoreRequest(rs: seq<Request>, r: Request)
    ensures HandedOver(rs + [r]) == HandedOver(rs) + if r.accumulated then r.content else ""
    ensures Sent(rs + [r]) == Sent(rs) + if r.accumulated && IsSent(r) then r.content else ""
  {
    assert (rs + [r])[..|rs|] == rs;
  }

  // ---------- the two calls ----------

  /** The arguments of the two calls, and for a report what publishing would come to. */
  datatype Op =
    | AddData(source: Option<seq<char>>, length: byte)
    | Report(useAddedData: bool, con: Option<string>, to: Option<string>, ri: Option<string>, published: int)

  /** The memory behind the data pointer reaches as far as the length says. */
  predicate Callable(op: Op) {
    op.AddData? && op.source.Some? ==> op.length <= |op.source.value|
  }

  /** `text` is the accumulated text, none while there is no accumulator; `added` is everything added. */
  datatype State = State(text: Option<string>, requests: seq<Request>, added: string)

  const INIT := State(None, [], "")

  function Held(s: State): string {
    if s.text.Some? then s.text.value else ""
  }

  /** What a report would send: the accumulated text or the given content. */
  function ContentOf(s: State, op: Op): Option<string>
    requires op.Report?
  {
    if op.useAddedData then s.text else op.con
  }

  /** One call: an addition appends up to the first NUL; a report with content makes a request, which
      passes its checks iff `to` and `ri` are there, and gives up the accumulator it was made from. */
  ghost function Step(s: State, op: Op): State
    requires Callable(op)
  {
    match op
    case AddData(source, length) =>
      if source == None || length < 1 then s
      else
        var piece := CStr(source.value[..length]);
        s.(text := Some(Held(s) + piece), added := s.added + piece)
    case Report(useAddedData, con, to, ri, published) =>
      var content := ContentOf(s, op);
      if content == None then s
      else
        State(if useAddedData then None else s.text,
              s.requests + [Request(content.value, useAddedData, to.Some? && ri.Some?, published)], s.added)
  }

  ghost function Run(s: State, ops: seq<Op>): State
    requires forall op :: op in ops ==> Callable(op)
    decreases |ops|
  {
    if ops == [] then s else Run(Step(s, ops[0]), ops[1..])
  }

  // ---------- what becomes of the content ----------

  /** Everything added has been handed to a request or is still held. */
  predicate Conserved(s: State) {
    HandedOver(s.requests) + Held(s) == s.added
  }

  /** Everything added has been published or is still held. */
  predicate Kept(s: State) {
    Sent(s.requests) + Held(s) == s.added
  }

  predicate Lost(s: State) {
    |Sent(s.requests)| + |Held(s)| < |s.added|
  }

  /** A report of accumulated text that is not empty gets its request published. */
  predicate Delivers(s: State, op: Op) {
    op.Report? && op.useAddedData && Held(s) != "" ==> op.to.Some? && op.ri.Some? && op.published == TP_SDK_SUCCESS
  }

  ghost predicate AllDeliver(s: State, ops: seq<Op>)
    requires forall op :: op in ops ==> Callable(op)
    decreases |ops|
  {
    ops == [] || (Delivers(s, ops[0]) && AllDeliver(Step(s, ops[0]), ops[1..]))
  }

  lemma StepConserves(s: State, op: Op)
    requires Callable(op) && Conserved(s)
    ensures Conserved(Step(s, op))
  {
    match op
    case AddData(source, length) =>
      if source.Some? && length >= 1 { Assoc(HandedOver(s.requests), Held(s), CStr(source.value[..length])); }
    case Report(_, _, _, _, _) => ReportConserves(s, op);
  }

  lemma ReportConserves(s: State, op: Op)
    requires op.Report? && Conserved(s)
    ensures Conserved(Step(s, op))
  {
    var content := ContentOf(s, op);
    if content.Some? {
      var accepted := op.to.Some? && op.ri.Some?;
      OneMoreRequest(s.requests, Request(content.value, op.useAddedData, accepted, op.published));
      SentOrLost(HandedOver(s.requests), Held(s), s.added);
      assert Held(Step(s, op)) == if op.useAddedData then "" else Held(s);
      NothingAdded(HandedOver(s.requests), HandedOver(s.requests) + Held(s));
    }
  }

  lemma NothingAdded(a: string, b: string)
    ensures a + "" == a && b + "" == b
  {
  }

  lemma StepKeepsOrLoses(s: State, op: Op)
    requires Callable(op)
    ensures Kept(s) && Delivers(s, op) ==> Kept(Step(s, op))
    ensures Kept(s) && !Delivers(s, op) ==> Lost(Step(s, op))
    ensures Lost(s) ==> Lost(Step(s, op))
  {
    match op
    case AddData(source, length) =>
      if source.Some? && length >= 1 { Assoc(Sent(s.requests), Held(s), CStr(source.value[..length])); }
    case Report(_, _, _, _, _) => ReportKeepsOrLoses(s, op);
  }

  lemma ReportKeepsOrLoses(s: State, op: Op)
    requires op.Report?
    ensures Kept(s) && Delivers(s, op) ==> Kept(Step(s, op))
    ensures Kept(s) && !Delivers(s, op) ==> Lost(Step(s, op))
    ensures Lost(s) ==> Lost(Step(s, op))
  {
    var content := ContentOf(s, op);
    if content.Some? {
      var accepted := op.to.Some? && op.ri.Some?;
      OneMoreRequest(s.requests, Request(content.value, op.useAddedData, accepted, op.published));
      SentOrLost(Sent(s.requests), Held(s), s.added);
      assert Held(Step(s, op)) == if op.useAddedData then "" else Held(s);
    }
  }

  lemma SentOrLost(sent: string, held: string, added: string)
    ensures sent + held == added && held != "" ==> |sent| < |added|
    ensures sent + "" == sent && (held == "" ==> sent + held == sent)
  {
  }

  lemma {:induction false} RunKeepsOrLoses(s: State, ops: seq<Op>)
    requires forall op :: op in ops ==> Callable(op)
    requires Conserved(s) && (Kept(s) || Lost(s))
    ensures Conserved(Run(s, ops))
    ensures Kept(s) && AllDeliver(s, ops) ==> Kept(Run(s, ops))
    ensures Lost(s) || !AllDeliver(s, ops) ==> Lost(Run(s, ops))
    decreases |ops|
  {
    if ops != [] {
      StepConserves(s, ops[0]);
      StepKeepsOrLoses(s, ops[0]);
      RunKeepsOrLoses(Step(s, ops[0]), ops[1..]);
    }
  }

  /** Over every run: the text of all requests and the text still held are all that was added, in
      order. All of it was published or is still held exactly when every report of accumulated text
      that was not empty had `to`, `ri` and a publishing code of 0. */
  lemma KeptExactlyWhenDelivered(ops: seq<Op>)
    requires forall op :: op in ops ==> Callable(op)
    ensures Conserved(Run(INIT, ops))
    ensures Kept(Run(INIT, ops)) <==> AllDeliver(INIT, ops)
  {
    RunKeepsOrLoses(INIT, ops);
  }

  /** The contents of the requests that do not carry accumulated text, in order. */
  function GivenContents(rs: seq<Request>): seq<string> {
    if rs == [] then []
    else GivenContents(rs[..|rs| - 1]) + if rs[|rs| - 1].accumulated then [] else [rs[|rs| - 1].content]
  }

  /** The contents that were given to reports that do not use the accumulated text, in order. */
  function Given(ops: seq<Op>): seq<string> {
    if ops == [] then []
    else (if ops[0].Report? && !ops[0].useAddedData && ops[0].con.Some? then [ops[0].con.value] else []) + Given(ops[1..])
  }

  /** Over every run from any state: a content given to a report goes out as it is, in a request of its
      own and in order, whatever has been accumulated; and it leaves what is held alone. */
  lemma {:induction false} GivenGoesOut(s: State, ops: seq<Op>)
    requires forall op :: op in ops ==> Callable(op)
    ensures GivenContents(Run(s, ops).requests) == GivenContents(s.requests) + Given(ops)
    ensures (forall op :: op in ops ==> op.Report? && !op.useAddedData) ==> Run(s, ops).text == s.text
    decreases |ops|
  {
    if ops == [] {
      assert GivenContents(s.requests) + [] == GivenContents(s.requests);
    } else {
      GivenStep(s, ops[0]);
      GivenGoesOut(Step(s, ops[0]), ops[1..]);
      GivenFirst(ops);
      Assoc(GivenContents(s.requests), Given([ops[0]]), Given(ops[1..]));
    }
  }

  lemma GivenFirst(ops: seq<Op>)
    requires ops != []
    ensures Given(ops) == Given([ops[0]]) + Given(ops[1..])
  {
    assert [ops[0]][1..] == [] && Given([]) == [];
  }

  lemma GivenStep(s: State, op: Op)
    requires Callable(op)
    ensures GivenContents(Step(s, op).requests) == GivenContents(s.requests) + Given([op])
    ensures op.Report? && !op.useAddedData ==> Step(s, op).text == s.text
  {
    assert [op][1..] == [] && Given([]) == [];
    var rs, rs' := s.requests, Step(s, op).requests;
    assert rs' == rs || (|rs'| == |rs| + 1 && rs'[..|rs'| - 1] == rs);
    assert GivenContents(rs) + [] == GivenContents(rs);
  }

  /** Added, reported, not published and gone: with a failed publication, and without a request id. */
  lemma LosingRuns()
    ensures var s := Run(INIT, [AddData(Some("x"), 1), Report(true, None, Some("to"), Some("ri"), -1)]);
      s.added == "x" && s.text == None && Sent(s.requests) == ""
    ensures var s := Run(INIT, [AddData(Some("x"), 1), Report(true, None, Some("to"), None, 0)]);
      s.added == "x" && s.text == None && Sent(s.requests) == ""
  {
    LosingRun(Report(true, None, Some("to"), Some("ri"), -1));
    LosingRun(Report(true, None, Some("to"), None, 0));
  }

  lemma LosingRun(report: Op)
    requires report.Report? && report.useAddedData && !(report.to.Some? && report.ri.Some? && report.published == 0)
    ensures var s := Run(INIT, [AddData(Some("x"), 1), report]);
      s.added == "x" && s.text == None && Sent(s.requests) == ""
  {
    var add := AddData(Some("x"), 1);
    CStrIs("x", "x");
    assert "x"[..1] == "x";
    assert [add, report][1..] == [report] && [report][1..] == [];
    var s1 := Step(INIT, add);
    assert "" + "x" == "x";
    assert s1 == State(Some("x"), [], "x");
    var s2 := Step(s1, report);
    assert Run(s1, [report]) == Run(s2, []);
    assert s2.requests[..0] == [];
  }

  /** The global `gContent` and what has been done with it. Its two fields are `data` and `len`; a
      null `data` stands for a null `gContent`. */
  class Device {
    var data: array?<char>
    var len: nat
    var requests: seq<Request>
    ghost var added: string

    ghost predicate Shaped()
      reads this, data
    {
      data != null ==> data.Length == len + 1 && data[len] == '\0'
    }

    ghost predicate Valid()
      reads this, data
    {
      Shaped() && Conserved(Abstract())
    }

    ghost function Abstract(): State
      reads this, data
    {
      State(if data == null then None else Some(CStr(data[..])), requests, added)
    }

    /** How far `len` is above the true length of the text. */
    ghost function Excess(): int
      reads this, data
    {
      if data == null then 0 else len - |CStr(data[..])|
    }

    constructor ()
      ensures Valid() && Abstract() == INIT
    {
      data, len, requests, added := null, 0, [], "";
    }

    /** tpAddData. `source` is the memory the pointer leads to; `unspecified` is what the memory
        gained by realloc happens to hold. */
    method AddData(source: Option<seq<char>>, length: byte, unspecified: seq<char>) returns (rc: int)
      requires Valid() && Callable(Op.AddData(source, length)) && length <= |unspecified|
      modifies this
      ensures Valid() && Abstract() == Step(old(Abstract()), Op.AddData(source, length))
      ensures rc == if source.Some? && length > 0 then TP_SDK_SUCCESS else TP_SDK_FAILURE
      ensures rc == TP_SDK_SUCCESS ==>
        Abstract().text == Some(Held(old(Abstract())) + CStr(source.value[..length])) && requests == old(requests)
      ensures data == old(data) || (data != null && fresh(data))
      ensures rc == TP_SDK_SUCCESS ==> Excess() == old(Excess()) + length - |CStr(source.value[..length])|
      ensures rc != TP_SDK_SUCCESS ==> Excess() == old(Excess())
    {
      ghost var before, piece := Abstract(), CStr(if source == None then "" else source.value[..length]);
      StepConserves(before, Op.AddData(source, length));
      if source == None || length < 1 { return TP_SDK_FAILURE; }
      if data == null {
        data := First(source.value, length);
        len := length;
      } else {
        data := Further(data, len, source.value, length, unspecified);
        len := len + length;
      }
      added := added + piece;
      assert CStr(data[..]) == Held(before) + piece;
      rc := TP_SDK_SUCCESS;
    }

    /** The accumulated content, as the string the request is given. */
    method ReadContent() returns (content: string)
      requires Shaped() && data != null
      ensures Abstract().text == Some(content)
    {
      assert data[..][len] == '\0';
      var n := StrLen(data);
      content := data[..n];
    }

    /** The request is made; the accumulator it was made from is freed. */
    method HandOver(r: Request, ghost op: Op)
      requires Shaped() && op.Report? && ContentOf(Abstract(), op) == Some(r.content)
      requires r == Request(r.content, op.useAddedData, op.to.Some? && op.ri.Some?, op.published)
      modifies this`requests, this`data
      ensures Shaped() && Abstract() == Step(old(Abstract()), op)
      ensures data == if r.accumulated then null else old(data)
    {
      requests := requests + [r];
      if r.accumulated { data := null; }
    }

    /** tpReport. `published` is the result of publishing. */
    method Report(useAddedData: bool, con: Option<string>, to: Option<string>, ri: Option<string>, published: int)
      returns (rc: int)
      requires Valid()
      modifies this
      ensures Valid() && Abstract() == Step(old(Abstract()), Op.Report(useAddedData, con, to, ri, published))
      ensures useAddedData && old(data) != null ==>
        requests == old(requests) + [Request(old(Abstract().text.value), true, to.Some? && ri.Some?, published)]
      ensures !useAddedData && con.Some? ==>
        requests == old(requests) + [Request(con.value, false, to.Some? && ri.Some?, published)]
      ensures !useAddedData ==> Abstract().text == old(Abstract().text)
      ensures (if useAddedData then old(data) == null else con == None) ==>
        requests == old(requests) && rc == TP_SDK_INVALID_PARAMETER
      ensures (if useAddedData then old(data) != null else con.Some?) ==>
        rc == if to.Some? && ri.Some? then published else TP_SDK_INVALID_PARAMETER
      ensures data == if useAddedData then null else old(data)
      ensures len == old(len)
    {
      StepConserves(Abstract(), Op.Report(useAddedData, con, to, ri, published));
      var content;
      if useAddedData {
        if data == null { return TP_SDK_INVALID_PARAMETER; }
        content := ReadContent();
      } else {
        if con == None { return TP_SDK_INVALID_PARAMETER; }
        content := con.value;
      }
      var accepted := to.Some? && ri.Some?;
      HandOver(Request(content, useAddedData, accepted, published), Op.Report(useAddedData, con, to, ri, published));
      rc := if accepted then published else TP_SDK_INVALID_PARAMETER;
    }
  }

  /** The first addition: a zeroed block and a copy. */
  method First(source: seq<char>, length: nat) returns (data: array<char>)
    requires length <= |source|
    ensures fresh(data) && data.Length == length + 1 && data[length] == '\0'
    ensures CStr(data[..]) == CStr(source[..length])
  {
    data := new char[length + 1](_ => '\0');
    MemCpy(data, source, length);
    assert data[..][length] == '\0';
    CStrIs(data[..], CStr(source[..length]));
  }

  /** A further addition: the grown block, its last byte cleared, and strncat. */
  method Further(old': array<char>, len: nat, source: seq<char>, length: nat, unspecified: seq<char>)
    returns (data: array<char>)
    requires old'.Length == len + 1 && old'[len] == '\0' && length <= |source| && length <= |unspecified|
    ensures fresh(data) && data.Length == len + length + 1 && data[len + length] == '\0'
    ensures CStr(data[..]) == CStr(old'[..]) + CStr(source[..length])
  {
    ghost var before := CStr(old'[..]);
    assert old'[..][len] == '\0';
    data := Realloc(old', len + length + 1, unspecified);
    data[len + length] := '\0';
    CStrIs(data[..], before);
    assert data[..][len + length] == '\0';
    StrNCat(data, source, length);
  }

  method MemCpy(buf: array<char>, src: seq<char>, n: nat)
    requires n <= buf.Length && n <= |src|
    modifies buf
    ensures buf[..] == src[..n] + old(buf[n..])
  {
    var i := 0;
    while i < n
      invariant 0 <= i <= n
      invariant buf[..i] == src[..i] && buf[i..] == old(buf[i..])
    {
      buf[i] := src[i];
      i := i + 1;
    }
  }

  /** A larger block: the old bytes, then unspecified ones. */
  method Realloc(buf: array<char>, size: nat, unspecified: seq<char>) returns (r: array<char>)
    requires buf.Length <= size <= buf.Length + |unspecified|
    ensures fresh(r) && r.Length == size && r[..] == buf[..] + unspecified[..size - buf.Length]
  {
    r := new char[size];
    var i := 0;
    while i < size
      invariant 0 <= i <= size
      invariant r[..i] == (buf[..] + unspecified)[..i]
    {
      r[i] := if i < buf.Length then buf[i] else unspecified[i - buf.Length];
      i := i + 1;
    }
    assert r[..] == r[..size];
  }

  /** `len` is the true length after any addition exactly when it was before and no NUL came with the data. */
  lemma NoExcess(before: int, piece: seq<char>)
    requires before >= 0
    ensures before + |piece| - |CStr(piece)| == 0 <==> before == 0 && '\0' !in piece
  {
    if '\0' !in piece { CStrIs(piece, piece); }
  }
}
