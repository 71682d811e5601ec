/**
 * The durability argument: what the dispatcher appends to the file, read
 * back with `BufRead::lines` and replayed from the same starting map,
 * gives the map the dispatcher itself produced -- provided every append
 * succeeded, keys and values hold no space, line feed or carriage return
 * and no Del has an empty key list.  Lemmas further down show a failed
 * append and an empty Del list breaking it.
 */
module Durability {
  import opened Protocol
  import opened Text
  import opened MiniRedis
  import opened ServerMain
  import opened ClientMain

  /**
   * A piece of a log line that survives writing and reading back.  Only a
   * carriage return at the very end of a line is lost; excluding them all
   * is a simpler, stronger condition.
   */
  predicate TokenOk(t: string)
  {
    ' ' !in t && '\n' !in t && '\r' !in t
  }

  /** A request whose log entry replays to the same effect. */
  predicate Durable(req: Request)
    ensures Durable(req) ==> WellFormed(req)
  {
    && WellFormed(req)
    && req.requestType != Exit
    && (req.requestType == Set ==> TokenOk(req.key.value[0]) && TokenOk(req.value.value))
    && (req.requestType == Del ==>
          |req.key.value| >= 1 && forall i :: 0 <= i < |req.key.value| ==> TokenOk(req.key.value[i]))
  }

  /** The map after the dispatcher handles `reqs` in order. */
  function Run(m: map<string, string>, reqs: seq<Request>): map<string, string>
    requires forall r <- reqs :: WellFormed(r)
    decreases |reqs|
  {
    if reqs == [] then m else Run(Apply(m, reqs[0]), reqs[1..])
  }

  /** What the dispatcher appends to the file for one request when no write fails. */
  function Chunk(req: Request): string
    requires WellFormed(req)
  {
    if Logged(req) then Appended(RedisOperation(req), NoFault) else []
  }

  /** The file text the dispatcher appends while handling `reqs`, when no write fails. */
  function LogText(reqs: seq<Request>): string
    requires forall r <- reqs :: WellFormed(r)
    decreases |reqs|
  {
    if reqs == [] then [] else Chunk(reqs[0]) + LogText(reqs[1..])
  }

  /** The entry without its final line feed: the line the reader hands back. */
  function EntryLine(req: Request): (line: string)
    requires WellFormed(req) && Logged(req)
    ensures RedisOperation(req) == line + "\n"
  {
    var e := RedisOperation(req);
    e[..|e| - 1]
  }

  /** The request an entry stands for: Set keeps only `key[0]`, Del drops any value. */
  function Canonical(req: Request): (c: Request)
    requires WellFormed(req) && Logged(req)
    ensures WellFormed(c)
    ensures forall m: map<string, string> :: Apply(m, c) == Apply(m, req)
  {
    if req.requestType == Set then Request(Some([req.key.value[0]]), req.value, Set)
    else Request(req.key, None, Del)
  }

  /**
   * The parser reads an entry back as the request it was written for
   * (only `key[0]` of a Set and no value of a Del), and that request has
   * the same effect on any map.
   */
  lemma EntryRoundTrip(req: Request, m: map<string, string>)
    requires Durable(req) && Logged(req)
    ensures ParseLogLine(EntryLine(req)) == Canonical(req)
    ensures Apply(m, Canonical(req)) == Apply(m, req)
  {
    var line := EntryLine(req);
    if req.requestType == Set {
      var k, v := req.key.value[0], req.value.value;
      assert line == "SET " + k + " " + v;
      ParseSetIff(line, k, v);
    } else {
      var keys := req.key.value;
      assert line == "DEL " + Join(keys, ' ');
      JoinCons("DEL", keys, ' ');
      assert SeparatorFree(keys, ' ') by {
        forall i | 0 <= i < |keys| ensures ' ' !in keys[i] {
          assert TokenOk(keys[i]);
        }
      }
      ParseDelIff(line, keys);
    }
  }

  /** An entry line is a plain line: no line feed inside, no carriage return at its end. */
  lemma EntryLinePlain(req: Request)
    requires Durable(req) && Logged(req)
    ensures PlainLine(EntryLine(req))
  {
    var line := EntryLine(req);
    if req.requestType == Set {
      var k, v := req.key.value[0], req.value.value;
      assert line == "SET " + k + " " + v;
      assert '\n' !in line && '\r' !in line;
    } else {
      var keys := req.key.value;
      assert line == "DEL " + Join(keys, ' ');
      assert forall i :: 0 <= i < |keys| ==> TokenOk(keys[i]);
      NotInJoin(keys, ' ', '\n');
      NotInJoin(keys, ' ', '\r');
      assert '\n' !in line && '\r' !in line;
    }
  }

  /** The writer's extra line feed leaves an empty line, which parses as Illegal and changes nothing. */
  lemma BlankLineIsNoOp(m: map<string, string>)
    ensures ParseLogLine("").requestType == Illegal
    ensures Replay(m, [""]) == m
  {
    assert Split("", ' ') == [""];
  }

  /** Reading back one request's chunk followed by the rest of the file. */
  lemma ChunkLines(req: Request, rest: string)
    requires Durable(req)
    ensures Logged(req) ==> Lines(Chunk(req) + rest) == [EntryLine(req), ""] + Lines(rest)
    ensures !Logged(req) ==> Chunk(req) + rest == rest
  {
    if Logged(req) {
      var line := EntryLine(req);
      EntryLinePlain(req);
      assert Chunk(req) == Unlines([line, ""]) by {
        assert Unlines([line, ""]) == line + "\n" + Unlines([""]);
      }
      LinesUnlines([line, ""], rest);
    }
  }

  /** An entry line followed by the blank line replays to the request's effect. */
  lemma ReplayEntry(m: map<string, string>, req: Request, tail: seq<string>)
    requires Durable(req) && Logged(req)
    ensures Replay(m, [EntryLine(req), ""] + tail) == Replay(Apply(m, req), tail)
  {
    var line := EntryLine(req);
    EntryRoundTrip(req, m);
    assert Replay(m, [line]) == Apply(m, req) by {
      assert [line][1..] == [];
    }
    BlankLineIsNoOp(Apply(m, req));
    assert [line, ""] + tail == [line] + ([""] + tail);
    ReplayConcat(m, [line], [""] + tail);
    ReplayConcat(Apply(m, req), [""], tail);
  }

  /** One request's chunk replays to that request's effect. */
  lemma ReplayChunk(m: map<string, string>, req: Request, rest: string)
    requires Durable(req)
    ensures Replay(m, Lines(Chunk(req) + rest)) == Replay(Apply(m, req), Lines(rest))
  {
    ChunkLines(req, rest);
    if Logged(req) {
      ReplayEntry(m, req, Lines(rest));
    }
  }

  /**
   * Replaying the file written while handling `reqs`, with every append
   * succeeding, reproduces the map the dispatcher produced, from any
   * starting map.
   */
  lemma {:induction false} ReplayReproducesRun(m: map<string, string>, reqs: seq<Request>)
    requires forall r <- reqs :: WellFormed(r) && Durable(r)
    ensures Replay(m, Lines(LogText(reqs))) == Run(m, reqs)
    decreases |reqs|
  {
    if reqs != [] {
      var req, rest := reqs[0], reqs[1..];
      assert Durable(req);
      assert forall r <- rest :: r in reqs;
      ReplayReproducesRun(Apply(m, req), rest);
      ReplayChunk(m, req, LogText(rest));
    }
  }

  /** A restart after `reqs` from an empty store recovers the store the server had. */
  lemma RestartRecovers(reqs: seq<Request>)
    requires forall r <- reqs :: WellFormed(r) && Durable(r)
    ensures Replay(map[], LinesRead(Lines(LogText(reqs)), ReadsAll)) == Run(map[], reqs)
  {
    ReplayReproducesRun(map[], reqs);
  }

  /** The text appended while handling `a` and then `b` is that of `a` followed by that of `b`. */
  lemma {:induction false} LogTextConcat(a: seq<Request>, b: seq<Request>)
    requires forall r <- a :: WellFormed(r)
    requires forall r <- b :: WellFormed(r)
    ensures LogText(a + b) == LogText(a) + LogText(b)
    decreases |a|
  {
    if a == [] {
      assert a + b == b;
    } else {
      assert (a + b)[0] == a[0];
      assert (a + b)[1..] == a[1..] + b;
      assert forall r <- a[1..] :: r in a;
      LogTextConcat(a[1..], b);
    }
  }

  /** Handling `a` and then `b` is handling `a + b`. */
  lemma {:induction false} RunConcat(m: map<string, string>, a: seq<Request>, b: seq<Request>)
    requires forall r <- a :: WellFormed(r)
    requires forall r <- b :: WellFormed(r)
    ensures Run(m, a + b) == Run(Run(m, a), b)
    decreases |a|
  {
    if a == [] {
      assert a + b == b;
    } else {
      assert (a + b)[0] == a[0];
      assert (a + b)[1..] == a[1..] + b;
      assert forall r <- a[1..] :: r in a;
      RunConcat(Apply(m, a[0]), a[1..], b);
    }
  }

  /**
   * Two sessions: a server started over the file of a first session `a`
   * recovers that session's map; if it then handles `b` with every append
   * succeeding, the next restart recovers the map it had at the end, which
   * is the map of handling `a + b` from an empty store.
   */
  lemma SecondRestartRecovers(a: seq<Request>, b: seq<Request>)
    requires forall r <- a :: WellFormed(r) && Durable(r)
    requires forall r <- b :: WellFormed(r) && Durable(r)
    ensures var first := Replay(map[], LinesRead(Lines(LogText(a)), ReadsAll));
      && first == Run(map[], a)
      && Replay(map[], LinesRead(Lines(LogText(a) + LogText(b)), ReadsAll)) == Run(first, b)
      && Run(first, b) == Run(map[], a + b)
  {
    ReplayReproducesRun(map[], a);
    assert forall r <- a + b :: r in a || r in b;
    ReplayReproducesRun(map[], a + b);
    LogTextConcat(a, b);
    RunConcat(map[], a, b);
  }

  /**
   * A failed append loses the write: after a run `reqs` whose appends all
   * succeeded, a Set whose open or entry write fails still updates the
   * live map, but the file is unchanged and a replay of it does not see
   * the Set.
   */
  lemma FailedAppendLosesWrite(reqs: seq<Request>, k: string, v: string, fault: AppendFault)
    requires forall r <- reqs :: WellFormed(r) && Durable(r)
    requires fault == OpenFails || fault == EntryWriteFails
    ensures var w := Request(Some([k]), Some(v), Set);
      && WellFormed(w)
      && Replay(map[], Lines(LogText(reqs) + Appended(RedisOperation(w), fault))) == Run(map[], reqs)
      && Apply(Run(map[], reqs), w) == Run(map[], reqs)[k := v]
  {
    var w := Request(Some([k]), Some(v), Set);
    assert LogText(reqs) + Appended(RedisOperation(w), fault) == LogText(reqs);
    ReplayReproducesRun(map[], reqs);
  }

  /**
   * The empty Del list breaks the round trip: it is written as "DEL ",
   * which reads back as a Del of the empty key.
   */
  lemma EmptyDelMisread()
    ensures var req := Request(Some([]), None, Del);
      && RedisOperation(req) == "DEL \n"
      && Lines(LogText([req])) == ["DEL ", ""]
      && ParseLogLine("DEL ") == Request(Some([""]), None, Del)
  {
    var req := Request(Some([]), None, Del);
    assert Join([], ' ') == "";
    assert LogText([req]) == "DEL \n\n" by {
      assert LogText([req]) == Chunk(req) + LogText([]);
    }
    assert Unlines(["DEL ", ""]) + "" == "DEL \n\n" by {
      assert Unlines(["DEL ", ""]) == "DEL " + "\n" + Unlines([""]);
    }
    LinesUnlines(["DEL ", ""], "");
    JoinCons("DEL", [""], ' ');
    ParseDelIff("DEL ", [""]);
  }

  /**
   * So with the empty key present, the live Del of no keys keeps it and
   * the replay of its entry removes it.
   */
  lemma EmptyDelDiverges(m: map<string, string>)
    requires "" in m
    ensures var req := Request(Some([]), None, Del);
      Apply(m, req) == m && "" !in Replay(m, Lines(LogText([req])))
  {
    var req := Request(Some([]), None, Del);
    EmptyDelMisread();
    var m' := Apply(m, Request(Some([""]), None, Del));
    assert "" !in m';
    ReplayConcat(m, ["DEL "], [""]);
    assert ["DEL "] + [""] == ["DEL ", ""];
    assert Replay(m, ["DEL "]) == m' by {
      assert ["DEL "][1..] == [];
    }
    BlankLineIsNoOp(m');
    assert Apply(m, req) == m;
  }

  /**
   * A failed write of the extra line feed loses nothing: the entry still
   * ends in a line feed and replays to the request's effect.
   */
  lemma LostNewlineHarmless(m: map<string, string>, req: Request, rest: string)
    requires Durable(req) && Logged(req)
    ensures Replay(m, Lines(Appended(RedisOperation(req), NewlineWriteFails) + rest)) ==
      Replay(Apply(m, req), Lines(rest))
  {
    var line := EntryLine(req);
    EntryLinePlain(req);
    EntryRoundTrip(req, m);
    assert Unlines([line]) == RedisOperation(req);
    LinesUnlines([line], rest);
    assert ([line] + Lines(rest))[1..] == Lines(rest);
  }

  /**
   * Every Set the client builds, and every Del with at least one key, is
   * durable, as long as the typed line holds no carriage return.
   */
  lemma ClientRequestDurable(input: string)
    requires Terminated(input)
    requires '\n' !in Stripped(input) && '\r' !in Stripped(input)
    ensures var a := ClientCommand(input);
      a.Send? && (a.req.requestType == Set || (a.req.requestType == Del && |a.req.key.value| >= 1)) ==>
        Durable(a.req)
  {
    var line := Stripped(input);
    var t := Split(line, ' ');
    forall i, c | 0 <= i < |t| && c in t[i] ensures c != '\n' && c != '\r' {
      InJoin(t, ' ', i, c);
    }
    assert forall i :: 0 <= i < |t| ==> TokenOk(t[i]);
    var a := ClientCommand(input);
    if a.Send? && a.req.requestType == Del {
      assert forall i :: 0 <= i < |a.req.key.value| ==> a.req.key.value[i] == t[i + 1];
    }
  }

  // ---------------------------------------------------------------------
  // The most recent write decides what a key holds
  // ---------------------------------------------------------------------

  /**
   * What `k` holds after `reqs` according to the most recent request that
   * wrote it: the value of the last Set of `k`, nothing if a Del listing
   * `k` came after it, and its value in `m` if no request touched it.
   */
  function LastWrite(m: map<string, string>, reqs: seq<Request>, k: string): Option<string>
    requires forall r <- reqs :: WellFormed(r)
    decreases |reqs|
  {
    if reqs == [] then (if k in m then Some(m[k]) else None)
    else
      var r := reqs[|reqs| - 1];
      assert r in reqs && WellFormed(r);
      if r.requestType == Set && r.key.value[0] == k then Some(r.value.value)
      else if r.requestType == Del && k in r.key.value then None
      else
        assert forall r' <- reqs[..|reqs| - 1] :: r' in reqs;
        LastWrite(m, reqs[..|reqs| - 1], k)
  }

  lemma {:induction false} RunSnoc(m: map<string, string>, reqs: seq<Request>, r: Request)
    requires forall r' <- reqs :: WellFormed(r')
    requires WellFormed(r)
    ensures Run(m, reqs + [r]) == Apply(Run(m, reqs), r)
    decreases |reqs|
  {
    if reqs == [] {
      assert [] + [r] == [r];
    } else {
      assert (reqs + [r])[1..] == reqs[1..] + [r];
      assert forall r' <- reqs[1..] :: r' in reqs;
      RunSnoc(Apply(m, reqs[0]), reqs[1..], r);
    }
  }

  /**
   * A Get after any sequence of commands answers the value of the most
   * recent Set of the key, or "NULL!" when a Del came later or nothing
   * wrote it and it was absent to begin with.
   */
  lemma {:induction false} GetSeesLastWrite(m: map<string, string>, reqs: seq<Request>, k: string)
    requires forall r <- reqs :: WellFormed(r)
    ensures var lw := LastWrite(m, reqs, k);
      Lookup(Run(m, reqs), k) == (if lw.Some? then lw.value else "NULL!")
    decreases |reqs|
  {
    if reqs != [] {
      var init, r := reqs[..|reqs| - 1], reqs[|reqs| - 1];
      assert reqs == init + [r];
      assert forall r' <- init :: r' in reqs;
      assert r in reqs;
      GetSeesLastWrite(m, init, k);
      RunSnoc(m, init, r);
    }
  }
}
