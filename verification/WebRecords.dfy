/** One parsed access-log record. */
module WebRecords {
  import opened Words
  import opened Wrappers

  datatype Totals = Totals(ioRx: U64, ioTx: U64, connect: U64, headers: U64, response: U64, time: U64)

  datatype ReqStat = ReqStat(prefix: string, shortPrefix: string, ts: int, websocket: bool, req: nat, totals: Totals)

  /** A line as the log parser delivers it: a field is None when it is missing or its text is not valid. */
  datatype Entry = Entry(
    time: Option<int>, request: Option<seq<string>>, status: Option<string>, requestLength: U64, bodyBytesSent: U64,
    requestTime: U64, connectTime: U64, headerTime: U64, responseTime: U64)

  datatype Reason = NoTime | NoRequest | NotThreeFields | NoStatus

  const NO_TOTALS := Totals(0, 0, 0, 0, 0, 0)

  function AddTotals(a: Totals, b: Totals): Totals {
    Totals(Plus(a.ioRx, b.ioRx), Plus(a.ioTx, b.ioTx), Plus(a.connect, b.connect), Plus(a.headers, b.headers),
           Plus(a.response, b.response), Plus(a.time, b.time))
  }

  datatype Field = IoRx | IoTx | Connect | Headers | Response | Time

  function Get(t: Totals, f: Field): U64 {
    match f
    case IoRx => t.ioRx
    case IoTx => t.ioTx
    case Connect => t.connect
    case Headers => t.headers
    case Response => t.response
    case Time => t.time
  }

  function Method(word: string): string {
    match word
    case "GET" => "get"
    case "POST" => "post"
    case "PUT" => "put"
    case "PATCH" => "patch"
    case "DELETE" => "delete"
    case "OPTIONS" => "options"
    case _ => "other"
  }

  function StatusClass(c: char): string {
    match c
    case '1' => "1xx"
    case '2' => "2xx"
    case '3' => "3xx"
    case '4' => "4xx"
    case '5' => "5xx"
    case _ => "0xx"
  }

  function Dashed(s: string): (t: string)
    ensures |t| == |s| && '/' !in t
    ensures forall i :: 0 <= i < |s| && s[i] != '/' ==> t[i] == s[i]
  {
    if s == [] then [] else [if s[0] == '/' then '-' else s[0]] + Dashed(s[1..])
  }

  /** found is the only group of the configured URL pattern, None when the pattern does not match. */
  function ExtractUrl(found: Option<string>): string {
    if found.None? || found.value == [] then "other"
    else
      var url := found.value;
      Dashed(if url[|url| - 1] == '/' then url[..|url| - 1] else url)
  }

  /** What the aggregator relies on: one request, and a status class after the short prefix. */
  ghost predicate WellFormed(w: ReqStat) {
    w.req == 1 && |w.prefix| == |w.shortPrefix| + 4 && w.shortPrefix + "." <= w.prefix
  }

  ghost predicate Readable(rec: Entry) {
    rec.time.Some? && rec.request.Some? && |rec.request.value| == 3 && rec.status.Some?
  }

  /** w holds what the line says: the short prefix is the URL and the method, the prefix adds the status class. */
  ghost predicate Describes(w: ReqStat, rec: Entry, find: string -> Option<string>, upstreamTime: int)
    requires rec.status.Some? ==> rec.status.value != []
  {
    Readable(rec) && WellFormed(w) && w.ts == rec.time.value && (w.websocket <==> rec.status.value[0] == '1')
    && w.shortPrefix == ExtractUrl(find(rec.request.value[1])) + "." + Method(rec.request.value[0])
    && w.prefix == w.shortPrefix + "." + StatusClass(rec.status.value[0])
    && w.totals.ioRx == rec.requestLength && w.totals.ioTx == rec.bodyBytesSent && w.totals.time == rec.requestTime
    && (w.totals.connect, w.totals.headers, w.totals.response)
       == if upstreamTime == 1 then (rec.connectTime, rec.headerTime, rec.responseTime) else (0, 0, 0)
  }

  function Lower(s: string): string {
    seq(|s|, i requires 0 <= i < |s| => if 'A' <= s[i] <= 'Z' then (s[i] as int + 32) as char else s[i])
  }

  /** url is the group found, with dashes for slashes and without one at the end, or a word for none. */
  ghost predicate IsUrl(url: string, found: Option<string>) {
    if found.None? || found.value == "" then url == "other"
    else
      var u := found.value;
      |url| == (if u[|u| - 1] == '/' then |u| - 1 else |u|)
      && forall i :: 0 <= i < |url| ==> url[i] == if u[i] == '/' then '-' else u[i]
  }

  lemma {:induction false} DashedAt(s: string)
    ensures forall i :: 0 <= i < |s| ==> Dashed(s)[i] == if s[i] == '/' then '-' else s[i]
  {
    if s != [] {
      DashedAt(s[1..]);
    }
  }

  // What a record holds, down to the text of its prefix: the URL, one of six methods in small letters or
  // "other", and the first character of the status, from 1 to 5 or else 0.
  lemma RecordSays(w: ReqStat, rec: Entry, find: string -> Option<string>, upstreamTime: int)
    requires (rec.status.Some? ==> rec.status.value != []) && Describes(w, rec, find, upstreamTime)
    ensures var word, c := rec.request.value[0], rec.status.value[0];
            var verb := if word in {"GET", "POST", "PUT", "PATCH", "DELETE", "OPTIONS"} then Lower(word) else "other";
            var status := if '1' <= c <= '5' then [c] + "xx" else "0xx";
            exists url :: IsUrl(url, find(rec.request.value[1]))
                          && w.shortPrefix == url + "." + verb && w.prefix == url + "." + verb + "." + status
    ensures w.req == 1 && rec.time == Some(w.ts) && (w.websocket <==> rec.status.value[0] == '1')
    ensures var off := upstreamTime != 1;
            w.totals == Totals(rec.requestLength, rec.bodyBytesSent, if off then 0 else rec.connectTime,
                               if off then 0 else rec.headerTime, if off then 0 else rec.responseTime, rec.requestTime)
  {
    UrlText(find(rec.request.value[1]));
    MethodText(rec.request.value[0]);
    StatusText(rec.status.value[0]);
  }

  lemma UrlText(found: Option<string>)
    ensures IsUrl(ExtractUrl(found), found)
  {
    if found.Some? && found.value != [] {
      var u := found.value;
      DashedAt(if u[|u| - 1] == '/' then u[..|u| - 1] else u);
    }
  }

  lemma StatusText(c: char)
    ensures StatusClass(c) == if '1' <= c <= '5' then [c] + "xx" else "0xx"
  {
  }

  lemma MethodText(word: string)
    ensures Method(word)
            == if word in {"GET", "POST", "PUT", "PATCH", "DELETE", "OPTIONS"} then Lower(word) else "other"
  {
  }

  // The fields are checked in order and the first that is missing is the reason of the failure.
  method ParseRecord(rec: Entry, find: string -> Option<string>, upstreamTime: int) returns (r: Result<ReqStat, Reason>)
    requires rec.status.Some? ==> rec.status.value != []
    ensures r.Success? <==> Readable(rec)
    ensures r.Success? ==> Describes(r.value, rec, find, upstreamTime)
    ensures r.Failure? ==> r.error == if rec.time.None? then NoTime else if rec.request.None? then NoRequest
                                      else if |rec.request.value| != 3 then NotThreeFields else NoStatus
  {
    if rec.time.None? {
      return Failure(NoTime);
    }
    var w := ReqStat("", "", rec.time.value, false, 1, NO_TOTALS);
    w := w.(totals := w.totals.(ioRx := rec.requestLength, ioTx := rec.bodyBytesSent));
    if rec.request.None? {
      return Failure(NoRequest);
    }
    var m := rec.request.value;
    if |m| != 3 {
      return Failure(NotThreeFields);
    }
    var verb := Method(m[0]);
    var url := ExtractUrl(find(m[1]));
    if rec.status.None? {
      return Failure(NoStatus);
    }
    var c := rec.status.value[0];
    if c == '1' {
      w := w.(websocket := true);
    }
    w := w.(prefix := url + "." + verb + "." + StatusClass(c), shortPrefix := url + "." + verb);
    w := w.(totals := w.totals.(time := rec.requestTime));
    if upstreamTime == 1 {
      w := w.(totals := w.totals.(connect := rec.connectTime, headers := rec.headerTime, response := rec.responseTime));
    }
    return Success(w);
  }

  // The full prefix determines the short one.
  lemma PrefixDetermines(v: ReqStat, w: ReqStat)
    requires WellFormed(v) && WellFormed(w) && v.prefix == w.prefix
    ensures v.shortPrefix == w.shortPrefix
  {
    assert v.shortPrefix == (v.shortPrefix + ".")[..|v.prefix| - 4] == v.prefix[..|v.prefix| - 4];
    assert w.shortPrefix == (w.shortPrefix + ".")[..|w.prefix| - 4] == w.prefix[..|w.prefix| - 4];
  }
}
