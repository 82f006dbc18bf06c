// What the host of a translation layer sees: a map from logical pages to the
// bytes last written there.
module Host {
  import opened Flash

  // The time of a request and the value random() would return while serving it.
  datatype Moment = Moment(startTime: real, random: nat)

  datatype Request =
    | Read(page: nat, moment: Moment)
    | Write(page: nat, bytes: Bytes, moment: Moment)
    | Trim(page: nat, moment: Moment)

  function HostStep(m: map<nat, Bytes>, request: Request): map<nat, Bytes> {
    match request
    case Read(_, _) => m
    case Write(page, bytes, _) => m[page := bytes]
    case Trim(page, _) => m - {page}
  }

  // What a plain map holds after a run of requests.
  function HostMap(m: map<nat, Bytes>, requests: seq<Request>): map<nat, Bytes> {
    if |requests| == 0 then m
    else HostStep(HostMap(m, requests[..|requests| - 1]), requests[|requests| - 1])
  }

  // Every read of a page the map holds at that point got that page's bytes.
  ghost predicate Answered(m: map<nat, Bytes>, requests: seq<Request>, replies: seq<Bytes>) {
    && |replies| == |requests|
    && forall i :: 0 <= i < |requests| && requests[i].Read? && requests[i].page in HostMap(m, requests[..i]) ==>
        replies[i] == HostMap(m, requests[..i])[requests[i].page]
  }

  lemma AnsweredNothing(m: map<nat, Bytes>)
    ensures Answered(m, [], []) && HostMap(m, []) == m
  {}

  lemma AnsweredMore(m: map<nat, Bytes>, requests: seq<Request>, replies: seq<Bytes>, request: Request, reply: Bytes)
    requires Answered(m, requests, replies)
    requires request.Read? && request.page in HostMap(m, requests) ==> reply == HostMap(m, requests)[request.page]
    ensures Answered(m, requests + [request], replies + [reply])
    ensures HostMap(m, requests + [request]) == HostStep(HostMap(m, requests), request)
  {
    var longer := requests + [request];
    assert longer[..|requests|] == requests;
    forall i | 0 <= i < |requests| ensures longer[..i] == requests[..i] {}
  }
}
