/**
 * The server library: the append-only-file serialiser, the server state
 * (the key-value map and the text of its append-only file), the command
 * dispatcher, and the logging middleware that refuses illegal requests.
 * Commands are handled one at a time; the lock around the map is not
 * modelled.
 */
module MiniRedis {
  import opened Protocol
  import opened Text

  // ---------------------------------------------------------------------
  // The append-only-file entry of a request
  // ---------------------------------------------------------------------

  /** A request that the serialiser turns into a non-empty entry. */
  predicate Serialisable(req: Request)
  {
    || (req.requestType == Set && req.key.Some? && req.value.Some?)
    || (req.requestType == Del && req.key.Some?)
  }

  /**
   * `redis_operation`: "SET <key[0]> <value>\n" for a Set with both fields,
   * "DEL <keys joined by spaces>\n" for a Del with a key list, and the
   * empty string for everything else.  Indexing `key[0]` panics on an
   * empty key list, hence the precondition.
   */
  function RedisOperation(req: Request): (entry: string)
    requires req.requestType == Set && req.key.Some? && req.value.Some? ==> |req.key.value| >= 1
    ensures entry != [] <==> Serialisable(req)
    ensures entry != [] ==> |entry| > 4 && entry[|entry| - 1] == '\n'
    ensures req.requestType == Set && entry != [] ==> entry[..4] == "SET "
    ensures req.requestType == Del && entry != [] ==> entry[..4] == "DEL "
  {
    match req.requestType
    case Set =>
      if req.key.Some? && req.value.Some? then "SET " + req.key.value[0] + " " + req.value.value + "\n" else ""
    case Del =>
      if req.key.Some? then "DEL " + Join(req.key.value, ' ') + "\n" else ""
    case _ => ""
  }

  // ---------------------------------------------------------------------
  // What a command does to the map and what it answers
  // ---------------------------------------------------------------------

  /** The keys of a Del list, as a set. */
  function KeySet(keys: seq<string>): set<string>
  {
    set k | k in keys
  }

  /** `k` is absent from both maps or maps to the same value in both. */
  predicate SameAt(m: map<string, string>, m': map<string, string>, k: string)
  {
    (k in m <==> k in m') && (k in m ==> m[k] == m'[k])
  }

  /** The requests whose effect is written to the append-only file. */
  predicate Logged(req: Request)
  {
    req.requestType == Set || req.requestType == Del
  }

  /**
   * The map after the command: Set inserts or overwrites `key[0]` (extra
   * keys are ignored), Del removes every listed key, every other command
   * leaves the map alone.
   */
  function Apply(m: map<string, string>, req: Request): (m': map<string, string>)
    requires WellFormed(req)
    ensures req.requestType == Set ==>
      var k := req.key.value[0];
      k in m' && m'[k] == req.value.value && forall k' :: k' != k ==> SameAt(m, m', k')
    ensures req.requestType == Del ==>
      (forall k :: k in req.key.value ==> k !in m') &&
      (forall k :: k !in req.key.value ==> SameAt(m, m', k))
    ensures !Logged(req) ==> m' == m
  {
    match req.requestType
    case Set => m[req.key.value[0] := req.value.value]
    case Del => m - KeySet(req.key.value)
    case _ => m
  }

  /** Keys listed in a Del that are present in the map: exactly the ones it removes. */
  function Removed(m: map<string, string>, keys: seq<string>): set<string>
  {
    m.Keys * KeySet(keys)
  }

  /** The outcome of one command: a response, or the end of the server process. */
  datatype Reply = Replied(response: Response) | ProcessExit

  /** The value a Get answers: the stored value, or the "NULL!" sentinel. */
  function Lookup(m: map<string, string>, k: string): string
  {
    if k in m then m[k] else "NULL!"
  }

  /**
   * The reply to a command given the map before it: "PONG" for Ping,
   * "OK!" for Set, the stored value or "NULL!" for Get, the number of
   * removed keys in decimal for Del, the end of the process for Exit and
   * the default response for Illegal.
   */
  function Answer(m: map<string, string>, req: Request): (r: Reply)
    requires WellFormed(req)
    ensures r.ProcessExit? <==> req.requestType == Exit
    ensures req.requestType == Ping ==> r == Replied(Response(Some("PONG"), Value))
    ensures req.requestType == Set ==> r == Replied(Response(Some("OK!"), Ok))
    ensures req.requestType == Get ==>
      r.response.responseType == Value && r.response.value.Some? &&
      (req.key.value[0] in m ==> r.response.value.value == m[req.key.value[0]]) &&
      (req.key.value[0] !in m ==> r.response.value.value == "NULL!")
    ensures req.requestType == Del ==>
      r.response.responseType == Value && r.response.value.Some? &&
      |r.response.value.value| >= 1 && AllDigits(r.response.value.value) &&
      (|r.response.value.value| > 1 ==> r.response.value.value[0] != '0') &&
      DecimalValue(r.response.value.value) == |Removed(m, req.key.value)| <= |req.key.value|
    ensures req.requestType == Illegal ==> r == Replied(DefaultResponse)
  {
    match req.requestType
    case Ping => Replied(Response(Some("PONG"), Value))
    case Set => Replied(Response(Some("OK!"), Ok))
    case Get => Replied(Response(Some(Lookup(m, req.key.value[0])), Value))
    case Del =>
      var n := |Removed(m, req.key.value)|;
      DecimalRoundTrip(n);
      RemovedBound(m, req.key.value);
      Replied(Response(Some(Decimal(n)), Value))
    case Exit => ProcessExit
    case Illegal => Replied(DefaultResponse)
  }

  lemma {:induction false} KeySetBound(keys: seq<string>)
    ensures |KeySet(keys)| <= |keys|
    decreases |keys|
  {
    if keys != [] {
      KeySetBound(keys[1..]);
      assert KeySet(keys) == {keys[0]} + KeySet(keys[1..]);
    }
  }

  /** A Del removes at most as many keys as it lists; a key listed twice is removed once. */
  lemma RemovedBound(m: map<string, string>, keys: seq<string>)
    ensures |Removed(m, keys)| <= |keys|
  {
    KeySetBound(keys);
    assert Removed(m, keys) <= KeySet(keys);
    SubsetCard(Removed(m, keys), KeySet(keys));
  }

  lemma {:induction false} SubsetCard(a: set<string>, b: set<string>)
    requires a <= b
    ensures |a| <= |b|
  {
    assert b == a + (b - a);
  }

  /** One more key of a Del list: it is removed, and counted, exactly when it is still present. */
  lemma RemovedStep(m: map<string, string>, keys: seq<string>, i: nat)
    requires i < |keys|
    ensures var before := m - KeySet(keys[..i]);
      && (keys[i] in before ==> before - {keys[i]} == m - KeySet(keys[..i + 1]))
      && (keys[i] !in before ==> before == m - KeySet(keys[..i + 1]))
      && (keys[i] in before ==> |Removed(m, keys[..i + 1])| == |Removed(m, keys[..i])| + 1)
      && (keys[i] !in before ==> Removed(m, keys[..i + 1]) == Removed(m, keys[..i]))
  {
    assert keys[..i + 1] == keys[..i] + [keys[i]];
    var k := keys[i];
    var s, s' := KeySet(keys[..i]), KeySet(keys[..i + 1]);
    assert s' == s + {k};
    var before := m - s;
    if k in before {
      assert (before - {k}).Keys == (m - s').Keys;
      assert Removed(m, keys[..i + 1]) == Removed(m, keys[..i]) + {k};
      assert k !in Removed(m, keys[..i]);
    } else {
      assert before.Keys == (m - s').Keys;
    }
  }

  // ---------------------------------------------------------------------
  // The server state
  // ---------------------------------------------------------------------

  /** How an append to the file can end. */
  datatype AppendFault =
    | NoFault            // both writes succeed
    | OpenFails          // the file cannot be opened: nothing is written
    | EntryWriteFails    // writing the entry fails: nothing is written
    | NewlineWriteFails  // the entry is written, the extra line feed is not

  /** The text an append adds to the file. */
  function Appended(entry: string, fault: AppendFault): string
  {
    match fault
    case NoFault => entry + "\n"
    case NewlineWriteFails => entry
    case _ => []
  }

  /**
   * The server: the key-value map and the contents of its append-only
   * file (the file is named by the server; here its text stands for it).
   */
  class Server {
    var data: map<string, string>
    var aof: string

    /** A server with an empty map over a file that already holds `log`. */
    constructor (log: string)
      ensures data == map[] && aof == log
    {
      data := map[];
      aof := log;
    }

    /**
     * `connect_to_aof`: open the file for appending, write the entry, then
     * one more line feed.  Reports whether every step succeeded.
     */
    method ConnectToAof(req: Request, fault: AppendFault) returns (ok: bool)
      requires req.requestType == Set && req.key.Some? && req.value.Some? ==> |req.key.value| >= 1
      modifies this`aof
      ensures aof == old(aof) + Appended(RedisOperation(req), fault)
      ensures ok <==> fault == NoFault
    {
      var entry := RedisOperation(req);
      match fault
      case OpenFails =>
        ok := false;
      case EntryWriteFails =>
        ok := false;
      case NewlineWriteFails =>
        aof := aof + entry;
        ok := false;
      case NoFault =>
        aof := aof + entry;
        aof := aof + "\n";
        ok := true;
    }

    /**
     * The loop of a Del: remove each listed key in turn, counting the
     * removals that found the key present.
     */
    method RemoveKeys(keys: seq<string>) returns (count: nat)
      modifies this`data
      ensures data == old(data) - KeySet(keys)
      ensures count == |Removed(old(data), keys)|
    {
      count := 0;
      var i := 0;
      while i < |keys|
        invariant 0 <= i <= |keys|
        invariant data == old(data) - KeySet(keys[..i])
        invariant count == |Removed(old(data), keys[..i])|
      {
        RemovedStep(old(data), keys, i);
        if keys[i] in data {
          data := data - {keys[i]};
          count := count + 1;
        }
        i := i + 1;
      }
      assert keys[..i] == keys;
    }

    /**
     * `redis_command`: dispatch one request.  Set and Del change the map
     * first and then append their entry; a failed append is only logged,
     * so neither the reply nor the map depends on `fault`.
     */
    method RedisCommand(req: Request, fault: AppendFault) returns (r: Reply)
      requires WellFormed(req)
      modifies this
      ensures data == Apply(old(data), req)
      ensures r == Answer(old(data), req)
      ensures aof == old(aof) + (if Logged(req) then Appended(RedisOperation(req), fault) else [])
    {
      assert aof + [] == aof;
      match req.requestType {
        case Ping =>
          r := Replied(Response(Some("PONG"), Value));
        case Set =>
          data := data[req.key.value[0] := req.value.value];
          var _ := ConnectToAof(req, fault);
          r := Replied(Response(Some("OK!"), Ok));
        case Get =>
          var k := req.key.value[0];
          if k in data {
            r := Replied(Response(Some(data[k]), Value));
          } else {
            r := Replied(Response(Some("NULL!"), Value));
          }
        case Del =>
          var count := RemoveKeys(req.key.value);
          var _ := ConnectToAof(req, fault);
          r := Replied(Response(Some(Decimal(count)), Value));
        case Exit =>
          r := ProcessExit;
        case Illegal =>
          r := Replied(DefaultResponse);
      }
    }
  }

  // ---------------------------------------------------------------------
  // The logging middleware
  // ---------------------------------------------------------------------

  datatype CallResult = Forwarded(reply: Reply) | Rejected(message: string)

  /** The error message of a refused request. */
  const IllegalMessage: string := "Illegal\U{FF01}"

  /**
   * `LogService::call` around the dispatcher: `info` is the request's
   * debug text.  When it contains "Illegal" the call fails without
   * reaching the dispatcher; otherwise the dispatcher's reply is passed
   * through unchanged.
   */
  method LogCall(info: string, s: Server, req: Request, fault: AppendFault) returns (r: CallResult)
    requires !Contains(info, "Illegal") ==> WellFormed(req)
    modifies s
    ensures Contains(info, "Illegal") ==> r == Rejected(IllegalMessage) && unchanged(s)
    ensures !Contains(info, "Illegal") ==>
      && r == Forwarded(Answer(old(s.data), req))
      && s.data == Apply(old(s.data), req)
      && s.aof == old(s.aof) + (if Logged(req) then Appended(RedisOperation(req), fault) else [])
  {
    if Contains(info, "Illegal") {
      return Rejected(IllegalMessage);
    }
    var reply := s.RedisCommand(req, fault);
    r := Forwarded(reply);
  }
}
