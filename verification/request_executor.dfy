/** The retry loop of `make_blizzard_api_call`, run over a finite trace of
    attempt outcomes instead of the network. Each attempt passes the
    throttle, sends the request, checks the status, reads the body into the
    call's buffer, repairs the buffer and decodes it; any failure starts
    the next attempt. The buffer is created once per call and every read
    appends to it, so a later attempt decodes the text of all earlier reads
    followed by its own. The loop is stated for any repair function; the
    call itself uses the owner sanitiser. */
module RequestExecutor {
  import opened ApiTypes
  import OwnerSanitizer
  import SeqFacts

  /** The status `hyper::Ok` stands for. */
  const StatusOk: int := 200

  /** How reading the response body went. On an I/O error the text read so
      far stays appended when it is valid UTF-8 and is dropped otherwise, so
      `kept` may be empty or a prefix of the body. */
  datatype ReadOutcome = ReadAll(body: string) | ReadFailed(kept: string)

  /** What the transport did on one attempt. */
  datatype Attempt =
    | SendFailed
    | Responded(status: int, read: ReadOutcome)

  /** The observable steps of a call, in order. */
  datatype Step = ThrottlePass | Request(url: string)

  /** The text an attempt appends to the call's buffer: nothing unless the
      status is OK, in which case whatever the read kept. */
  function Appended(a: Attempt): (t: string)
    ensures a.SendFailed? || (a.Responded? && a.status != StatusOk) ==> t == ""
    ensures a.Responded? && a.status == StatusOk && a.read.ReadAll? ==> t == a.read.body
  {
    match a
    case SendFailed => ""
    case Responded(status, read) =>
      if status != StatusOk then ""
      else match read
        case ReadAll(body) => body
        case ReadFailed(kept) => kept
  }

  /** The buffer after the first `k` attempts of `trace`. */
  function BufferAfter(trace: seq<Attempt>, k: nat): string
    requires k <= |trace|
  {
    if k == 0 then "" else BufferAfter(trace, k - 1) + Appended(trace[k - 1])
  }

  /** An attempt returns from the call when the status is OK, the whole body
      was read, and the buffer it leaves, repaired, decodes. */
  predicate Returns<T>(a: Attempt, buffer: string, repair: string -> string, decode: string -> Option<T>)
  {
    && a.Responded?
    && a.status == StatusOk
    && a.read.ReadAll?
    && decode(repair(buffer)).Some?
  }

  /** Attempt `k` (from 0) of the loop as written returns: it decodes the
      buffer holding everything read up to and including it. */
  predicate Succeeds<T>(trace: seq<Attempt>, k: nat, repair: string -> string, decode: string -> Option<T>)
    requires k < |trace|
  {
    Returns(trace[k], BufferAfter(trace, k + 1), repair, decode)
  }

  /** The body of the retry loop, run on a buffer holding `s`: pass the
      throttle, send to `url`, check the status, read into the buffer,
      repair and decode. `decoded` is the value the call returns, if this
      attempt is the one that returns; `taken` is what reached the throttle
      and the transport, in order, whatever the outcome. */
  method RunAttempt<T>(url: string, a: Attempt, s: string, repair: string -> string, decode: string -> Option<T>)
    returns (s': string, decoded: Option<T>, taken: seq<Step>)
    ensures s' == s + Appended(a)
    ensures decoded.Some? <==> Returns(a, s', repair, decode)
    ensures decoded.Some? ==> decoded == decode(repair(s'))
    ensures taken == [ThrottlePass, Request(url)]
  {
    s' := s;
    decoded := None;
    taken := [ThrottlePass];
    taken := taken + [Request(url)];
    if a.SendFailed? || a.status != StatusOk {
      return;
    }
    match a.read {
      case ReadFailed(kept) =>
        s' := s' + kept;
        return;
      case ReadAll(body) =>
        s' := s' + body;
    }
    decoded := decode(repair(s'));
  }

  /** One throttle pass followed by one request to `url`, per attempt. */
  predicate StepsOfAttempts(steps: seq<Step>, url: string, attempts: nat)
  {
    && |steps| == 2 * attempts
    && forall i :: 0 <= i < |steps| ==>
         steps[i] == (if i % 2 == 0 then ThrottlePass else Request(url))
  }

  lemma StepsOfNextAttempt(steps: seq<Step>, url: string, attempts: nat)
    requires StepsOfAttempts(steps, url, attempts)
    ensures StepsOfAttempts(steps + [ThrottlePass, Request(url)], url, attempts + 1)
  {
    var next := steps + [ThrottlePass, Request(url)];
    forall i | 0 <= i < |next|
      ensures next[i] == (if i % 2 == 0 then ThrottlePass else Request(url))
    {
      if i >= |steps| {
        assert i == 2 * attempts || i == 2 * attempts + 1;
      }
    }
  }

  /** The retry loop as written: one buffer for the whole call. It returns
      the decoded value of the first attempt that succeeds; `retries` is the
      attempt counter (the number of that attempt, or every attempt of the
      trace when none succeeds), `steps` what reached the throttle and the
      transport, and `buffer` the raw buffer. */
  method RetryCall<T>(url: string, trace: seq<Attempt>, repair: string -> string, decode: string -> Option<T>)
    returns (r: Option<T>, retries: nat, steps: seq<Step>, buffer: string)
    ensures retries <= |trace|
    ensures forall k :: 0 <= k < retries - 1 ==> !Succeeds(trace, k, repair, decode)
    ensures r.Some? ==> && 1 <= retries
                        && Succeeds(trace, retries - 1, repair, decode)
                        && r == decode(repair(BufferAfter(trace, retries)))
    ensures r.None? ==> retries == |trace| && forall k :: 0 <= k < |trace| ==> !Succeeds(trace, k, repair, decode)
    ensures r.Some? <==> exists k :: 0 <= k < |trace| && Succeeds(trace, k, repair, decode)
    ensures buffer == BufferAfter(trace, retries)
    ensures StepsOfAttempts(steps, url, retries)
  {
    var s := "";
    r := None;
    retries := 0;
    steps := [];
    while retries < |trace|
      invariant retries <= |trace|
      invariant s == BufferAfter(trace, retries)
      invariant forall k :: 0 <= k < retries ==> !Succeeds(trace, k, repair, decode)
      invariant StepsOfAttempts(steps, url, retries)
    {
      StepsOfNextAttempt(steps, url, retries);
      var decoded, taken;
      s, decoded, taken := RunAttempt(url, trace[retries], s, repair, decode);
      retries := retries + 1;
      steps := steps + taken;
      if decoded.Some? {
        r := decoded;
        break;
      }
    }
    buffer := s;
  }

  /** `make_blizzard_api_call` as written: the retry loop with the owner
      sanitiser as the repair. */
  method MakeApiCall<T>(url: string, trace: seq<Attempt>, decode: string -> Option<T>)
    returns (r: Option<T>, retries: nat, steps: seq<Step>, buffer: string)
    ensures retries <= |trace|
    ensures forall k :: 0 <= k < retries - 1 ==> !Succeeds(trace, k, OwnerSanitizer.Sanitize, decode)
    ensures r.Some? ==> && 1 <= retries
                        && Succeeds(trace, retries - 1, OwnerSanitizer.Sanitize, decode)
                        && r == decode(OwnerSanitizer.Sanitize(BufferAfter(trace, retries)))
    ensures r.None? ==> retries == |trace| && forall k :: 0 <= k < |trace| ==> !Succeeds(trace, k, OwnerSanitizer.Sanitize, decode)
    ensures r.Some? <==> exists k :: 0 <= k < |trace| && Succeeds(trace, k, OwnerSanitizer.Sanitize, decode)
    ensures buffer == BufferAfter(trace, retries)
    ensures StepsOfAttempts(steps, url, retries)
  {
    r, retries, steps, buffer := RetryCall(url, trace, OwnerSanitizer.Sanitize, decode);
  }

  /** What one attempt does to the buffer: a send failure or a non-OK
      status leaves it as it was; otherwise the read appends the whole body,
      or on a read error the part it kept. */
  lemma BufferAfterAttempt(trace: seq<Attempt>, k: nat)
    requires 0 < k <= |trace|
    ensures trace[k - 1].SendFailed? ==> BufferAfter(trace, k) == BufferAfter(trace, k - 1)
    ensures trace[k - 1].Responded? && trace[k - 1].status != StatusOk ==> BufferAfter(trace, k) == BufferAfter(trace, k - 1)
    ensures trace[k - 1].Responded? && trace[k - 1].status == StatusOk ==>
              BufferAfter(trace, k) == BufferAfter(trace, k - 1) +
                (match trace[k - 1].read case ReadAll(body) => body case ReadFailed(kept) => kept)
  {
  }

  /** The buffer is never cleared: what it held after `j` attempts is still
      at its front after any later attempt. */
  lemma {:induction false} BufferNeverCleared(trace: seq<Attempt>, j: nat, k: nat)
    requires j <= k <= |trace|
    ensures BufferAfter(trace, j) <= BufferAfter(trace, k)
    decreases k
  {
    if j < k {
      BufferNeverCleared(trace, j, k - 1);
    }
  }

  /** The texts the attempts of `trace` read, in order: the body or the kept
      part of every attempt whose status was OK. */
  function TextsRead(trace: seq<Attempt>): seq<string>
  {
    if |trace| == 0 then []
    else if trace[0].Responded? && trace[0].status == StatusOk then
      [if trace[0].read.ReadAll? then trace[0].read.body else trace[0].read.kept] + TextsRead(trace[1..])
    else TextsRead(trace[1..])
  }

  function Concat(texts: seq<string>): string
  {
    if |texts| == 0 then "" else texts[0] + Concat(texts[1..])
  }

  lemma {:induction false} ConcatAppend(texts: seq<string>, t: string)
    ensures Concat(texts + [t]) == Concat(texts) + t
  {
    if |texts| == 0 {
      assert texts + [t] == [t];
    } else {
      assert (texts + [t])[1..] == texts[1..] + [t];
      ConcatAppend(texts[1..], t);
    }
  }

  lemma {:induction false} TextsReadAppend(trace: seq<Attempt>, a: Attempt)
    ensures TextsRead(trace + [a]) ==
              TextsRead(trace) + (if a.Responded? && a.status == StatusOk then [Appended(a)] else [])
  {
    if |trace| == 0 {
      assert [a][1..] == [];
    } else {
      assert (trace + [a])[1..] == trace[1..] + [a];
      TextsReadAppend(trace[1..], a);
    }
  }

  /** The text attempt `k` decodes is everything read in attempts 1 to `k`,
      joined in order. */
  lemma {:induction false} BufferIsAllTextsRead(trace: seq<Attempt>, k: nat)
    requires k <= |trace|
    ensures BufferAfter(trace, k) == Concat(TextsRead(trace[..k]))
    decreases k
  {
    if k > 0 {
      BufferIsAllTextsRead(trace, k - 1);
      assert trace[..k] == trace[..k - 1] + [trace[k - 1]];
      TextsReadAppend(trace[..k - 1], trace[k - 1]);
      var a := trace[k - 1];
      if a.Responded? && a.status == StatusOk {
        ConcatAppend(TextsRead(trace[..k - 1]), Appended(a));
      } else {
        assert TextsRead(trace[..k - 1]) + [] == TextsRead(trace[..k - 1]);
      }
    }
  }

  /** Attempt `k` returns when only its own body counts: the status is OK,
      the whole body was read, and that body, repaired, decodes. */
  predicate SucceedsAlone<T>(trace: seq<Attempt>, k: nat, repair: string -> string, decode: string -> Option<T>)
    requires k < |trace|
  {
    Returns(trace[k], Appended(trace[k]), repair, decode)
  }

  /** The retry loop with the buffer declared inside the loop, so every
      attempt decodes only the body it read itself. Once the transport
      delivers a payload that decodes, it returns that payload, however many
      attempts failed before. */
  method RetryCallFreshBuffer<T>(url: string, trace: seq<Attempt>, repair: string -> string, decode: string -> Option<T>)
    returns (r: Option<T>, retries: nat, steps: seq<Step>)
    ensures retries <= |trace|
    ensures forall k :: 0 <= k < retries - 1 ==> !SucceedsAlone(trace, k, repair, decode)
    ensures r.Some? ==> && 1 <= retries
                        && SucceedsAlone(trace, retries - 1, repair, decode)
                        && r == decode(repair(trace[retries - 1].read.body))
    ensures r.None? ==> retries == |trace| && forall k :: 0 <= k < |trace| ==> !SucceedsAlone(trace, k, repair, decode)
    ensures r.Some? <==> exists k :: 0 <= k < |trace| && SucceedsAlone(trace, k, repair, decode)
    ensures StepsOfAttempts(steps, url, retries)
  {
    r := None;
    retries := 0;
    steps := [];
    while retries < |trace|
      invariant retries <= |trace|
      invariant forall k :: 0 <= k < retries ==> !SucceedsAlone(trace, k, repair, decode)
      invariant StepsOfAttempts(steps, url, retries)
    {
      StepsOfNextAttempt(steps, url, retries);
      var s, decoded, taken := RunAttempt(url, trace[retries], "", repair, decode);
      SeqFacts.AppendNothing(Appended(trace[retries]));
      retries := retries + 1;
      steps := steps + taken;
      if decoded.Some? {
        assert SucceedsAlone(trace, retries - 1, repair, decode);
        r := decoded;
        break;
      }
    }
  }

  /** `make_blizzard_api_call` with a fresh buffer per attempt. */
  method MakeApiCallFreshBuffer<T>(url: string, trace: seq<Attempt>, decode: string -> Option<T>)
    returns (r: Option<T>, retries: nat, steps: seq<Step>)
    ensures retries <= |trace|
    ensures forall k :: 0 <= k < retries - 1 ==> !SucceedsAlone(trace, k, OwnerSanitizer.Sanitize, decode)
    ensures r.Some? ==> && 1 <= retries
                        && SucceedsAlone(trace, retries - 1, OwnerSanitizer.Sanitize, decode)
                        && r == decode(OwnerSanitizer.Sanitize(trace[retries - 1].read.body))
    ensures r.None? ==> retries == |trace| && forall k :: 0 <= k < |trace| ==> !SucceedsAlone(trace, k, OwnerSanitizer.Sanitize, decode)
    ensures r.Some? <==> exists k :: 0 <= k < |trace| && SucceedsAlone(trace, k, OwnerSanitizer.Sanitize, decode)
    ensures StepsOfAttempts(steps, url, retries)
  {
    r, retries, steps := RetryCallFreshBuffer(url, trace, OwnerSanitizer.Sanitize, decode);
  }

  /** A decoder that accepts exactly the empty JSON object. It rejects a
      payload with text before it, as a JSON decoder rejects trailing or
      leading garbage. */
  function DecodeEmptyObject(t: string): Option<int>
  {
    if t == "{}" then Some(0) else None
  }

  /** One bad body followed by a good one: the first read returns `x`, which
      does not decode; the second returns `{}`, which does. */
  function BadThenGoodTrace(): seq<Attempt>
  {
    [Responded(StatusOk, ReadAll("x")), Responded(StatusOk, ReadAll("{}"))]
  }

  /** With the buffer kept across attempts, the good second body is decoded
      as `x{}` and rejected, so no attempt of this trace returns, and the
      call as written keeps retrying; with a fresh buffer the second attempt
      returns. */
  lemma AccumulatedBufferBlocksRecovery()
    ensures forall k :: 0 <= k < |BadThenGoodTrace()| ==> !Succeeds(BadThenGoodTrace(), k, OwnerSanitizer.Sanitize, DecodeEmptyObject)
    ensures SucceedsAlone(BadThenGoodTrace(), 1, OwnerSanitizer.Sanitize, DecodeEmptyObject)
  {
  }

  /** The general form: once an OK attempt has read `x`, every later buffer
      starts with `x`, so no attempt of any trace that begins that way ever
      returns, whatever the server sends afterwards. */
  lemma LeadingBadBodyBlocksEveryAttempt(trace: seq<Attempt>)
    requires |trace| > 0 && trace[0] == Responded(StatusOk, ReadAll("x"))
    ensures forall k :: 0 <= k < |trace| ==> !Succeeds(trace, k, OwnerSanitizer.Sanitize, DecodeEmptyObject)
  {
    assert BufferAfter(trace, 1) == "x";
    forall k | 0 <= k < |trace|
      ensures !Succeeds(trace, k, OwnerSanitizer.Sanitize, DecodeEmptyObject)
    {
      var b := BufferAfter(trace, k + 1);
      BufferNeverCleared(trace, 1, k + 1);
      OwnerSanitizer.SanitizeKeepsLeadingNonQuote(b);
    }
  }
}
