/**
  The HTTP log merger: log lines of many requests, interleaved, become one entry for each id.
  Matching a line, decoding its payload and reading its time stamp are given; a payload that
  is not shaped as expected makes the program stop, here `None`.
 */
module HttpLog {
  import opened Options
  import opened Splitting

  datatype Json =
    | Null | Bool(b: bool) | Number(n: real) | Str(s: string) | Arr(items: seq<Json>) | Obj(fields: map<string, Json>)

  const EMPTY_OBJECT := Obj(map[])

  predicate Falsy(j: Json) {
    j == Null || j == Bool(false) || j == Number(0.0) || j == Str("") || j == Arr([]) || j == EMPTY_OBJECT
  }

  /** `j or default` */
  function Or(j: Json, default: Json): Json { if Falsy(j) then default else j }

  /** `j.get(field, default)`, which only objects have. */
  function Get(j: Json, field: string, default: Json): Option<Json> {
    if !j.Obj? then None else Some(if field in j.fields then j.fields[field] else default)
  }

  type Timestamp = Option<real>

  datatype Request = Request(method_: Json, url: Json, headers: Json, content: Json, timestamp: Timestamp)
  datatype Response = Response(status: Json, headers: Json, content: Json, version: Json, timestamp: Timestamp)

  function ExtractRequest(payload: Json, timestamp: Timestamp): Option<Request> {
    var req := Get(payload, "request", EMPTY_OBJECT);
    if req.None? then None
    else
      var info, body := Get(req.value, "info", EMPTY_OBJECT), Get(req.value, "body", EMPTY_OBJECT);
      if info.None? || body.None? || !info.value.Obj? || !body.value.Obj? then None
      else Some(Request(
        Get(info.value, "method", Str("GET")).value,
        Get(info.value, "url", Str("")).value,
        Or(Get(req.value, "header", EMPTY_OBJECT).value, EMPTY_OBJECT),
        Or(Get(body.value, "data", Null).value, Str("")),
        timestamp))
  }

  /** e.g. "HTTP 2" becomes "HTTP/2.0". */
  function HttpVersion(version: Json): Option<Json> {
    if Falsy(version) then Some(version)
    else if !version.Str? then None
    else if "HTTP/" <= version.s then Some(version)
    else Some(Str("HTTP/" + Last(Split<char>(version.s, ' ')) + (if '.' in version.s then "" else ".0")))
  }

  function ExtractResponse(payload: Json, timestamp: Timestamp): Option<Response> {
    var resp := Get(payload, "response", EMPTY_OBJECT);
    if resp.None? then None
    else
      var info, body := Get(resp.value, "info", EMPTY_OBJECT), Get(resp.value, "body", EMPTY_OBJECT);
      if info.None? || body.None? || !info.value.Obj? || !body.value.Obj? then None
      else
        var reply := Get(info.value, "reply", EMPTY_OBJECT).value;
        var version := Get(reply, "version", Str("HTTP/1.1"));
        if version.None? || HttpVersion(version.value).None? then None
        else Some(Response(
          Get(reply, "status", Number(200.0)).value,
          Or(Get(resp.value, "header", EMPTY_OBJECT).value, EMPTY_OBJECT),
          Or(Get(body.value, "data", Null).value, Str("")),
          HttpVersion(version.value).value,
          timestamp))
  }

  /** The payload the client logs for a request. */
  function RequestPayload(method_: Json, url: Json, headers: Json, data: Json): Json {
    Obj(map["request" := Obj(map[
      "info" := Obj(map["method" := method_, "url" := url]),
      "header" := headers,
      "body" := Obj(map["data" := data])])])
  }

  /**
    A logged request is read back exactly if falsy headers are an empty object and falsy data is
    an empty text; one that says nothing is a GET without contents.
   */
  lemma RequestIsReadBack(method_: Json, url: Json, headers: Json, data: Json, timestamp: Timestamp)
    ensures ExtractRequest(RequestPayload(method_, url, headers, data), timestamp)
         == Some(Request(method_, url, headers, data, timestamp))
       <==> (Falsy(headers) ==> headers == EMPTY_OBJECT) && (Falsy(data) ==> data == Str(""))
    ensures ExtractRequest(EMPTY_OBJECT, timestamp)
         == Some(Request(Str("GET"), Str(""), EMPTY_OBJECT, Str(""), timestamp))
  {
  }

  /** The payload the client logs for a response. */
  function ResponsePayload(status: Json, version: Json, headers: Json, data: Json): Json {
    Obj(map["response" := Obj(map[
      "info" := Obj(map["reply" := Obj(map["status" := status, "version" := version])]),
      "header" := headers,
      "body" := Obj(map["data" := data])])])
  }

  /**
    A logged response is read back, with its version normalised, exactly if falsy headers are an
    empty object and falsy data is an empty text; one that says nothing is a 200 with HTTP/1.1.
   */
  lemma ResponseIsReadBack(status: Json, version: string, headers: Json, data: Json, timestamp: Timestamp)
    ensures ExtractResponse(ResponsePayload(status, Str(version), headers, data), timestamp)
         == Some(Response(status, headers, data, HttpVersion(Str(version)).value, timestamp))
       <==> (Falsy(headers) ==> headers == EMPTY_OBJECT) && (Falsy(data) ==> data == Str(""))
    ensures ExtractResponse(EMPTY_OBJECT, timestamp)
         == Some(Response(Number(200.0), EMPTY_OBJECT, Str(""), Str("HTTP/1.1"), timestamp))
  {
  }

  /** What lies at the end of a path of fields. */
  function Find(j: Json, path: seq<string>): Option<Json> {
    if path == [] then Some(j)
    else if j.Obj? && path[0] in j.fields then Find(j.fields[path[0]], path[1..])
    else None
  }

  /** Where a path of fields leads anywhere, it leads to an object. */
  predicate IsObjectAt(j: Json, path: seq<string>) {
    Find(j, path).Some? ==> Find(j, path).value.Obj?
  }

  function OrElse(found: Option<Json>, default: Json): Json {
    if found.Some? then found.value else default
  }

  /** A missing, null, false, zero or empty value is replaced. */
  function UnlessEmpty(found: Option<Json>, default: Json): Json {
    if found.None? || found.value in [Null, Bool(false), Number(0.0), Str(""), Arr([]), Obj(map[])] then default
    else found.value
  }

  lemma FindOne(j: Json, a: string)
    ensures Find(j, [a]) == if j.Obj? && a in j.fields then Some(j.fields[a]) else None
  {
    assert [a][1..] == [];
  }

  lemma FindStep(j: Json, a: string, path: seq<string>)
    ensures Find(j, [a] + path) == if j.Obj? && a in j.fields then Find(j.fields[a], path) else None
  {
    assert ([a] + path)[1..] == path;
  }

  lemma FindTwo(j: Json, a: string, b: string)
    ensures Find(j, [a, b]) == if Find(j, [a]).Some? then Find(Find(j, [a]).value, [b]) else None
  {
    FindOne(j, a);
    FindStep(j, a, [b]);
    assert [a] + [b] == [a, b];
  }

  lemma FindThree(j: Json, a: string, b: string, c: string)
    ensures Find(j, [a, b, c]) == if Find(j, [a]).Some? then Find(Find(j, [a]).value, [b, c]) else None
  {
    FindOne(j, a);
    FindStep(j, a, [b, c]);
    assert [a] + [b, c] == [a, b, c];
  }

  /** Of any payload: when it can be used as a request, and then what of it is where. */
  lemma RequestIsExtracted(payload: Json, timestamp: Timestamp)
    ensures var r := ExtractRequest(payload, timestamp);
            && (r.Some? <==> payload.Obj? && IsObjectAt(payload, ["request"])
                             && IsObjectAt(payload, ["request", "info"]) && IsObjectAt(payload, ["request", "body"]))
            && (r.Some? ==> r.value == Request(
                  OrElse(Find(payload, ["request", "info", "method"]), Str("GET")),
                  OrElse(Find(payload, ["request", "info", "url"]), Str("")),
                  UnlessEmpty(Find(payload, ["request", "header"]), Obj(map[])),
                  UnlessEmpty(Find(payload, ["request", "body", "data"]), Str("")),
                  timestamp))
  {
    FindOne(payload, "request");
    FindTwo(payload, "request", "info");
    FindTwo(payload, "request", "body");
    FindTwo(payload, "request", "header");
    FindThree(payload, "request", "info", "method");
    FindThree(payload, "request", "info", "url");
    FindThree(payload, "request", "body", "data");
    var req := OrElse(Find(payload, ["request"]), EMPTY_OBJECT);
    FindOne(req, "info");
    FindOne(req, "body");
    FindOne(req, "header");
    FindTwo(req, "info", "method");
    FindTwo(req, "info", "url");
    FindTwo(req, "body", "data");
    var info, body := OrElse(Find(req, ["info"]), EMPTY_OBJECT), OrElse(Find(req, ["body"]), EMPTY_OBJECT);
    FindOne(info, "method");
    FindOne(info, "url");
    FindOne(body, "data");
  }

  /** The same for a response, whose version is a text or empty. */
  lemma ResponseIsExtracted(payload: Json, timestamp: Timestamp)
    ensures var r := ExtractResponse(payload, timestamp);
            var resp := OrElse(Find(payload, ["response"]), Obj(map[]));
            var reply := OrElse(Find(resp, ["info", "reply"]), Obj(map[]));
            var version := OrElse(Find(reply, ["version"]), Str("HTTP/1.1"));
            && (r.Some? <==> payload.Obj? && resp.Obj? && IsObjectAt(resp, ["info"]) && IsObjectAt(resp, ["body"])
                             && reply.Obj? && HttpVersion(version).Some?)
            && (r.Some? ==> r.value == Response(
                  OrElse(Find(reply, ["status"]), Number(200.0)),
                  UnlessEmpty(Find(resp, ["header"]), Obj(map[])),
                  UnlessEmpty(Find(resp, ["body", "data"]), Str("")),
                  HttpVersion(version).value,
                  timestamp))
  {
    FindOne(payload, "response");
    var resp := OrElse(Find(payload, ["response"]), EMPTY_OBJECT);
    FindOne(resp, "info");
    FindOne(resp, "body");
    FindOne(resp, "header");
    FindTwo(resp, "info", "reply");
    FindTwo(resp, "body", "data");
    var info, body := OrElse(Find(resp, ["info"]), EMPTY_OBJECT), OrElse(Find(resp, ["body"]), EMPTY_OBJECT);
    FindOne(info, "reply");
    FindOne(body, "data");
    var reply := OrElse(Find(info, ["reply"]), EMPTY_OBJECT);
    FindOne(reply, "status");
    FindOne(reply, "version");
  }

  /**
    The version of any text: unless it begins with HTTP/ already, that and what follows the last
    space, with .0 if the text has no dot; an empty text stays, and so does a normalised one.
   */
  lemma VersionIsNormalised(before: string, last: string, version: string)
    requires ' ' !in last && (version == last || version == before + [' '] + last)
    ensures HttpVersion(Str(version)) == Some(Str(
              if version == "" || "HTTP/" <= version then version
              else "HTTP/" + last + (if '.' in version then "" else ".0")))
    ensures HttpVersion(HttpVersion(Str(version)).value) == HttpVersion(Str(version))
  {
    SplitFree<char>(last, ' ');
    if version == before + [' '] + last {
      SplitAround<char>(before, ' ', last);
    }
    assert Last(Split<char>(version, ' ')) == last;
  }

  /** Other values have no version, except the empty ones, which stay. */
  lemma VersionOfOthers(j: Json)
    requires !j.Str?
    ensures HttpVersion(j) == if j in [Null, Bool(false), Number(0.0), Arr([]), Obj(map[])] then Some(j) else None
  {
  }

  // ------------------------------------------------------------- the merger

  /** A line of the log: not one of ours, one whose payload is no JSON, or a record. */
  datatype Line =
    | Unmatched
    | Undecodable(id: string)
    | Record(isRequest: bool, id: string, payload: Json, timestamp: Timestamp)

  datatype Entry = Entry(request: Option<Request>, response: Option<Response>)

  const NO_ENTRY := Entry(None, None)

  /** A dictionary in insertion order. */
  datatype Log = Log(order: seq<string>, entries: map<string, Entry>)

  function EntryOf(log: Log, id: string): Entry {
    if id in log.entries then log.entries[id] else NO_ENTRY
  }

  function SetDefault(log: Log, id: string): Log {
    if id in log.entries then log else Log(log.order + [id], log.entries[id := NO_ENTRY])
  }

  /** A line with a payload the program cannot use. */
  predicate Unusable(line: Line) {
    line.Record? && if line.isRequest then ExtractRequest(line.payload, line.timestamp).None?
                    else ExtractResponse(line.payload, line.timestamp).None?
  }

  /** The entry with what a record says; the other half stays. */
  function Updated(entry: Entry, line: Line): Entry
    requires line.Record?
  {
    if line.isRequest then entry.(request := ExtractRequest(line.payload, line.timestamp))
    else entry.(response := ExtractResponse(line.payload, line.timestamp))
  }

  /** What a line does to the log; `None` if the program stops. */
  function AddLine(log: Log, line: Line): Option<Log> {
    if !line.Record? then Some(log)
    else if Unusable(line) then None
    else
      var l := SetDefault(log, line.id);
      Some(l.(entries := l.entries[line.id := Updated(l.entries[line.id], line)]))
  }

  function Merged(lines: seq<Line>): Option<Log> {
    if lines == [] then Some(Log([], map[]))
    else
      var log := Merged(Front(lines));
      if log.None? then None else AddLine(log.value, Last(lines))
  }

  method ParseLog(lines: seq<Line>) returns (log: Option<Log>)
    ensures log == Merged(lines)
  {
    var data := Log([], map[]);
    for i := 0 to |lines|
      invariant Merged(lines[..i]) == Some(data)
    {
      assert Front(lines[..i + 1]) == lines[..i];
      var line := lines[i];
      if !line.Record? {
        continue;
      }
      data := SetDefault(data, line.id);
      var entry := data.entries[line.id];
      if line.isRequest {
        var r := ExtractRequest(line.payload, line.timestamp);
        if r.None? {
          StopsForGood(lines, i + 1);
          return None;
        }
        entry := entry.(request := r);
      } else {
        var r := ExtractResponse(line.payload, line.timestamp);
        if r.None? {
          StopsForGood(lines, i + 1);
          return None;
        }
        entry := entry.(response := r);
      }
      data := data.(entries := data.entries[line.id := entry]);
    }
    assert lines[..|lines|] == lines;
    log := Some(data);
  }

  lemma {:induction false} StopsForGood(lines: seq<Line>, n: nat)
    requires n <= |lines| && Merged(lines[..n]).None?
    ensures Merged(lines).None?
    decreases |lines| - n
  {
    if n == |lines| {
      assert lines[..n] == lines;
    } else {
      assert Front(lines[..n + 1]) == lines[..n];
      StopsForGood(lines, n + 1);
    }
  }

  // -------------------------------------------------------- the projection

  predicate IsRecordOf(line: Line, id: string) {
    line.Record? && line.id == id
  }

  /** The lines of one id. */
  function OwnLines(lines: seq<Line>, id: string): (own: seq<Line>)
    ensures forall line :: line in own <==> line in lines && IsRecordOf(line, id)
  {
    if lines == [] then []
    else OwnLines(Front(lines), id) + (if IsRecordOf(Last(lines), id) then [Last(lines)] else [])
  }

  /** The entry an id must have: its last request and its last response. */
  function LastOnes(own: seq<Line>): Entry {
    if own == [] then NO_ENTRY
    else
      var before, line := LastOnes(Front(own)), Last(own);
      if line.Record? then Updated(before, line) else before
  }

  /** The program stops exactly when some record has an unusable payload. */
  lemma {:induction false} StopsExactly(lines: seq<Line>)
    ensures Merged(lines).None? <==> exists i :: 0 <= i < |lines| && Unusable(lines[i])
  {
    if lines != [] {
      var front, n := Front(lines), |lines| - 1;
      StopsExactly(front);
      assert forall i :: 0 <= i < n ==> front[i] == lines[i];
      if Merged(lines).None? {
        if Merged(front).None? {
          var i :| 0 <= i < n && Unusable(front[i]);
          assert Unusable(lines[i]);
        } else {
          assert Unusable(lines[n]);
        }
      }
    }
  }

  lemma AddLineToEntry(log: Log, line: Line, id: string)
    requires !Unusable(line)
    ensures var after := AddLine(log, line).value;
            && (id in after.entries <==> id in log.entries || IsRecordOf(line, id))
            && EntryOf(after, id) == if IsRecordOf(line, id) then Updated(EntryOf(log, id), line) else EntryOf(log, id)
  {
  }

  /** The last request, or response, of the id; -1 if there is none. */
  ghost function LastRecord(lines: seq<Line>, id: string, isRequest: bool): (i: int)
    ensures -1 <= i < |lines|
    ensures i >= 0 ==> IsRecordOf(lines[i], id) && lines[i].isRequest == isRequest
    ensures forall k :: i < k < |lines| ==> !(IsRecordOf(lines[k], id) && lines[k].isRequest == isRequest)
  {
    if lines == [] then -1
    else if IsRecordOf(Last(lines), id) && Last(lines).isRequest == isRequest then |lines| - 1
    else
      var i := LastRecord(Front(lines), id, isRequest);
      assert forall k :: 0 <= k < |lines| - 1 ==> Front(lines)[k] == lines[k];
      i
  }

  /** The entry an id has: what its last request says, and what its last response says. */
  ghost function LastEntry(lines: seq<Line>, id: string): Entry {
    var i, j := LastRecord(lines, id, true), LastRecord(lines, id, false);
    Entry(if i < 0 then None else ExtractRequest(lines[i].payload, lines[i].timestamp),
          if j < 0 then None else ExtractResponse(lines[j].payload, lines[j].timestamp))
  }

  lemma LastEntryStep(front: seq<Line>, line: Line, id: string)
    ensures LastEntry(front + [line], id) ==
            if IsRecordOf(line, id) then Updated(LastEntry(front, id), line) else LastEntry(front, id)
  {
    assert Front(front + [line]) == front;
  }

  /** However the lines are interleaved, the entry of an id is its last request and its last response. */
  lemma {:induction false} EntryIsLast(lines: seq<Line>, id: string)
    requires Merged(lines).Some?
    ensures EntryOf(Merged(lines).value, id) == LastEntry(lines, id)
  {
    if lines != [] {
      var front, line := Front(lines), Last(lines);
      EntryIsLast(front, id);
      assert front + [line] == lines;
      LastEntryStep(front, line, id);
      AddLineToEntry(Merged(front).value, line, id);
    }
  }

  lemma OwnLinesStep(front: seq<Line>, line: Line, id: string)
    ensures var own, more := OwnLines(front, id), OwnLines(front + [line], id);
            && more == (if IsRecordOf(line, id) then own + [line] else own)
            && LastOnes(more) == if IsRecordOf(line, id) then Updated(LastOnes(own), line) else LastOnes(own)
  {
    assert Front(front + [line]) == front;
    assert Front(OwnLines(front, id) + [line]) == OwnLines(front, id);
  }

  /**
    Projection: however the lines of many ids are interleaved, the entry of an id is made of its
    own lines alone, and it has one exactly if it has a decodable line.
   */
  lemma {:induction false} EntryIsProjection(lines: seq<Line>, id: string)
    requires Merged(lines).Some?
    ensures var log, own := Merged(lines).value, OwnLines(lines, id);
            && (id in log.entries <==> own != [])
            && EntryOf(log, id) == LastOnes(own)
  {
    if lines != [] {
      var front, line := Front(lines), Last(lines);
      EntryIsProjection(front, id);
      assert front + [line] == lines;
      OwnLinesStep(front, line, id);
      AddLineToEntry(Merged(front).value, line, id);
    }
  }

  /** Merging an id's own lines alone gives the same entry. */
  lemma OthersDoNotMatter(lines: seq<Line>, id: string)
    requires Merged(lines).Some?
    ensures Merged(OwnLines(lines, id)).Some?
    ensures EntryOf(Merged(lines).value, id) == EntryOf(Merged(OwnLines(lines, id)).value, id)
  {
    var own := OwnLines(lines, id);
    OwnLinesUsable(lines, id);
    StopsExactly(own);
    EntryIsProjection(lines, id);
    EntryIsProjection(own, id);
    OwnOfOwn(lines, id);
  }

  lemma {:induction false} OwnOfOwn(lines: seq<Line>, id: string)
    ensures OwnLines(OwnLines(lines, id), id) == OwnLines(lines, id)
  {
    if lines != [] {
      var front, line := Front(lines), Last(lines);
      OwnOfOwn(front, id);
      assert front + [line] == lines;
      OwnLinesStep(front, line, id);
      OwnLinesStep(OwnLines(front, id), line, id);
    }
  }

  // -------------------------------------------------------------- the order

  /** Line `i` is the first decodable one of the id. */
  ghost predicate IsFirst(lines: seq<Line>, id: string, i: int) {
    0 <= i < |lines| && IsRecordOf(lines[i], id) && forall k :: 0 <= k < i ==> !IsRecordOf(lines[k], id)
  }

  /** The keys are the ids with a decodable line, each once, ordered by their first ones. */
  ghost predicate OrderedByFirst(lines: seq<Line>, log: Log, firsts: seq<int>) {
    && |firsts| == |log.order|
    && (forall i :: 0 <= i < |firsts| ==> IsFirst(lines, log.order[i], firsts[i]))
    && (forall i, j :: 0 <= i < j < |firsts| ==> firsts[i] < firsts[j])
    && (forall id :: id in log.order <==> id in log.entries)
  }

  lemma FirstKept(front: seq<Line>, line: Line, id: string, i: int)
    requires IsFirst(front, id, i)
    ensures IsFirst(front + [line], id, i)
  {
    assert forall k :: 0 <= k < |front| ==> (front + [line])[k] == front[k];
  }

  lemma NewIdIsFirst(front: seq<Line>, line: Line)
    requires line.Record? && Merged(front).Some? && line.id !in Merged(front).value.entries
    ensures IsFirst(front + [line], line.id, |front|)
  {
    EntryIsProjection(front, line.id);
    forall k | 0 <= k < |front|
      ensures !IsRecordOf((front + [line])[k], line.id)
    {
      assert front[k] in front;
      assert front[k] !in OwnLines(front, line.id);
    }
  }

  lemma KeysStep(front: seq<Line>, line: Line, before: seq<int>) returns (firsts: seq<int>)
    requires Merged(front).Some? && AddLine(Merged(front).value, line).Some?
    requires OrderedByFirst(front, Merged(front).value, before)
    ensures OrderedByFirst(front + [line], AddLine(Merged(front).value, line).value, firsts)
  {
    var log, lines := Merged(front).value, front + [line];
    forall i | 0 <= i < |before|
      ensures IsFirst(lines, log.order[i], before[i]) && before[i] < |front|
    {
      FirstKept(front, line, log.order[i], before[i]);
    }
    if line.Record? && line.id !in log.entries {
      NewIdIsFirst(front, line);
      firsts := before + [|front|];
    } else {
      firsts := before;
    }
  }

  lemma {:induction false} KeysInOrder(lines: seq<Line>) returns (firsts: seq<int>)
    requires Merged(lines).Some?
    ensures OrderedByFirst(lines, Merged(lines).value, firsts)
  {
    if lines == [] {
      firsts := [];
    } else {
      var before := KeysInOrder(Front(lines));
      assert Front(lines) + [Last(lines)] == lines;
      firsts := KeysStep(Front(lines), Last(lines), before);
    }
  }

  // ------------------------------------------------------------------ flows

  function WithRequest(log: Log): set<string> {
    set id | id in log.entries && log.entries[id].request.Some?
  }

  ghost function FlowsOf(log: Log, ids: seq<string>): set<string> {
    set id | id in WithRequest(log) && id in ids
  }

  lemma FlowsStep(log: Log, ids: seq<string>, id: string)
    ensures FlowsOf(log, ids + [id]) == if id in WithRequest(log) then FlowsOf(log, ids) + {id} else FlowsOf(log, ids)
  {
  }

  /** The ids that have a REQUEST record. */
  ghost function RequestedIds(lines: seq<Line>, log: Log): set<string> {
    set id | id in log.entries && HasRequest(lines, id)
  }

  /** The counting loop of `generate_mitm_flows`: one flow for each id with a request. */
  method CountFlows(lines: seq<Line>, log: Log) returns (count: nat)
    requires Merged(lines) == Some(log)
    ensures count == |WithRequest(log)|
    ensures count == |RequestedIds(lines, log)|
  {
    ghost var firsts := KeysInOrder(lines);
    count := 0;
    ghost var counted: set<string> := {};
    for i := 0 to |log.order|
      invariant count == |counted|
      invariant counted == FlowsOf(log, log.order[..i])
    {
      var id := log.order[i];
      FlowsStep(log, log.order[..i], id);
      assert log.order[..i + 1] == log.order[..i] + [id];
      assert id in log.order;
      if log.entries[id].request.None? {
        continue;
      }
      FirstIsUnique(lines, log, firsts, i);
      counted := counted + {id};
      count := count + 1;
    }
    assert log.order[..|log.order|] == log.order;
    assert FlowsOf(log, log.order) == WithRequest(log);
    RequestsAreRecorded(lines, log);
  }

  lemma FirstIsUnique(lines: seq<Line>, log: Log, firsts: seq<int>, i: nat)
    requires OrderedByFirst(lines, log, firsts) && i < |firsts|
    ensures log.order[i] !in log.order[..i]
  {
    forall k | 0 <= k < i
      ensures log.order[k] != log.order[i]
    {
      assert IsFirst(lines, log.order[k], firsts[k]) && IsFirst(lines, log.order[i], firsts[i]);
      assert firsts[k] < firsts[i];
    }
  }

  ghost predicate HasRequest(lines: seq<Line>, id: string) {
    exists line :: line in lines && IsRecordOf(line, id) && line.isRequest
  }

  lemma HasRequestStep(front: seq<Line>, line: Line, id: string)
    ensures HasRequest(front + [line], id) <==> HasRequest(front, id) || (IsRecordOf(line, id) && line.isRequest)
  {
    var all := front + [line];
    assert forall l :: l in all <==> l in front || l == line;
  }

  /** The last request of an id's own lines exists exactly if the id has a request. */
  lemma {:induction false} LastRequestExists(lines: seq<Line>, id: string)
    requires Merged(lines).Some?
    ensures LastOnes(OwnLines(lines, id)).request.Some? <==> HasRequest(lines, id)
  {
    if lines != [] {
      var front, line := Front(lines), Last(lines);
      LastRequestExists(front, id);
      assert front + [line] == lines;
      HasRequestStep(front, line, id);
      OwnLinesStep(front, line, id);
    }
  }

  lemma OwnLinesUsable(lines: seq<Line>, id: string)
    requires Merged(lines).Some?
    ensures var own := OwnLines(lines, id); forall i :: 0 <= i < |own| ==> own[i].Record? && !Unusable(own[i])
  {
    var own := OwnLines(lines, id);
    StopsExactly(lines);
    forall i | 0 <= i < |own|
      ensures own[i].Record? && !Unusable(own[i])
    {
      assert own[i] in own;
      var k :| 0 <= k < |lines| && lines[k] == own[i];
      assert !Unusable(lines[k]);
    }
  }

  lemma RequestsAreRecorded(lines: seq<Line>, log: Log)
    requires Merged(lines) == Some(log)
    ensures WithRequest(log) == RequestedIds(lines, log)
  {
    forall id | id in log.entries
      ensures log.entries[id].request.Some? <==> HasRequest(lines, id)
    {
      EntryIsProjection(lines, id);
      LastRequestExists(lines, id);
    }
  }
}
