/**
 * The server binary: parsing one line of the append-only file back into a
 * request, replaying the file into the map at start-up, and the start-up
 * sequence itself (replay, then serve whatever the outcome).
 */
module ServerMain {
  import opened Protocol
  import opened Text
  import opened MiniRedis

  // ---------------------------------------------------------------------
  // operation: one log line back to a request
  // ---------------------------------------------------------------------

  /**
   * The request a log line stands for: the line is split at every space;
   * "SET k v" (exactly three pieces) is a Set of `k` to `v`, any line whose
   * first piece is "DEL" is a Del of all the other pieces, in order, and
   * every other line is Illegal.
   */
  function ParseLogLine(line: string): (req: Request)
    ensures WellFormed(req)
    ensures req.requestType == Set || req.requestType == Del || req.requestType == Illegal
  {
    var t := Split(line, ' ');
    if t[0] == "SET" && |t| == 3 then Request(Some([t[1]]), Some(t[2]), Set)
    else if t[0] == "DEL" then Request(Some(t[1..]), None, Del)
    else Bare(Illegal)
  }

  /** `operation`: builds the request, copying the Del keys one by one. */
  method Operation(line: string) returns (req: Request)
    ensures req == ParseLogLine(line)
  {
    var tokens := Split(line, ' ');
    req := Bare(Illegal);
    if tokens[0] == "SET" && |tokens| == 3 {
      req := Request(Some([tokens[1]]), Some(tokens[2]), Set);
    } else if tokens[0] == "DEL" {
      var tmp := [];
      for i := 1 to |tokens|
        invariant tmp == tokens[1..i]
      {
        tmp := tmp + [tokens[i]];
      }
      assert tokens[1..|tokens|] == tokens[1..];
      req := Request(Some(tmp), None, Del);
    }
  }

  /**
   * Which kind of request a line parses to, stated without splitting: Set
   * exactly when the keyword is "SET" and the line has two spaces, Del
   * exactly when the keyword is "DEL", Illegal otherwise (the empty line,
   * lower-case keywords, a SET with too few or too many pieces).
   */
  lemma ParseLogLineKind(line: string)
    ensures ParseLogLine(line).requestType == Set <==> Keyword(line) == "SET" && Count(line, ' ') == 2
    ensures ParseLogLine(line).requestType == Del <==> Keyword(line) == "DEL"
    ensures ParseLogLine(line).requestType == Illegal <==>
      Keyword(line) != "DEL" && !(Keyword(line) == "SET" && Count(line, ' ') == 2)
  {
    SplitHead(line, ' ');
    SplitLength(line, ' ');
  }

  /** A line parses to a Set of `k` to `v` exactly when it reads "SET k v" with space-free `k` and `v`. */
  lemma ParseSetIff(line: string, k: string, v: string)
    ensures ParseLogLine(line) == Request(Some([k]), Some(v), Set) <==>
      line == "SET " + k + " " + v && ' ' !in k && ' ' !in v
  {
    var ts := ["SET", k, v];
    assert Join(ts, ' ') == "SET " + k + " " + v by {
      JoinCons(k, [v], ' ');
      JoinCons("SET", [k, v], ' ');
    }
    if ParseLogLine(line) == Request(Some([k]), Some(v), Set) {
      var t := Split(line, ' ');
      assert t == ts;
    }
    if line == "SET " + k + " " + v && ' ' !in k && ' ' !in v {
      SplitJoin(ts, ' ');
    }
  }

  /**
   * A line parses to a Del of `keys` exactly when it is "DEL" followed by
   * the space-free keys, each after one space.
   */
  lemma ParseDelIff(line: string, keys: seq<string>)
    ensures ParseLogLine(line) == Request(Some(keys), None, Del) <==>
      line == Join(["DEL"] + keys, ' ') && SeparatorFree(keys, ' ')
  {
    var ts := ["DEL"] + keys;
    assert ts[1..] == keys;
    if ParseLogLine(line) == Request(Some(keys), None, Del) {
      var t := Split(line, ' ');
      assert t == ts;
    }
    if line == Join(ts, ' ') && SeparatorFree(keys, ' ') {
      SplitJoin(ts, ' ');
    }
  }

  // ---------------------------------------------------------------------
  // Replay of the append-only file
  // ---------------------------------------------------------------------

  /** The map after replaying `lines` in file order: Set and Del lines apply, others do nothing. */
  function Replay(m: map<string, string>, lines: seq<string>): map<string, string>
    decreases |lines|
  {
    if lines == [] then m else Replay(Apply(m, ParseLogLine(lines[0])), lines[1..])
  }

  /** Replaying one more line applies that line to the replayed map. */
  lemma {:induction false} ReplaySnoc(m: map<string, string>, lines: seq<string>, line: string)
    ensures Replay(m, lines + [line]) == Apply(Replay(m, lines), ParseLogLine(line))
    decreases |lines|
  {
    if lines == [] {
      assert [] + [line] == [line];
    } else {
      assert (lines + [line])[1..] == lines[1..] + [line];
      ReplaySnoc(Apply(m, ParseLogLine(lines[0])), lines[1..], line);
    }
  }

  /** Replaying two pieces of a file one after the other is replaying the whole. */
  lemma {:induction false} ReplayConcat(m: map<string, string>, a: seq<string>, b: seq<string>)
    ensures Replay(m, a + b) == Replay(Replay(m, a), b)
    decreases |a|
  {
    if a != [] {
      assert (a + b)[1..] == a[1..] + b;
      ReplayConcat(Apply(m, ParseLogLine(a[0])), a[1..], b);
    } else {
      assert a + b == b;
    }
  }

  /** How reading the file can end. */
  datatype ReadFault =
    | ReadsAll             // every line is read
    | CannotOpen           // the file is missing or cannot be opened
    | ReadErrorAt(n: nat)  // reading line `n` (counting from 0) fails

  /** The lines read before the reader stops. */
  function LinesRead(lines: seq<string>, fault: ReadFault): (read: seq<string>)
    ensures read <= lines
    ensures fault.ReadsAll? ==> read == lines
  {
    if fault.CannotOpen? then []
    else if fault.ReadErrorAt? && fault.n < |lines| then lines[..fault.n]
    else lines
  }

  datatype RebuildResult = Rebuilt | RebuildFailed

  /**
   * `rebuild_data_from_aof`: replay the server's file into its map, line by
   * line.  A file that cannot be opened changes nothing; a read error stops
   * the replay with the lines before it applied.
   */
  method RebuildDataFromAof(s: Server, fault: ReadFault) returns (r: RebuildResult)
    modifies s`data
    ensures s.data == Replay(old(s.data), LinesRead(Lines(s.aof), fault))
    ensures r == RebuildFailed <==>
      fault.CannotOpen? || (fault.ReadErrorAt? && fault.n < |Lines(s.aof)|)
  {
    if fault.CannotOpen? {
      return RebuildFailed;
    }
    var lines := Lines(s.aof);
    var i := 0;
    while i < |lines|
      invariant 0 <= i <= |lines|
      invariant fault.ReadErrorAt? ==> i <= fault.n
      invariant s.data == Replay(old(s.data), lines[..i])
    {
      if fault.ReadErrorAt? && fault.n == i {
        return RebuildFailed;
      }
      var req := Operation(lines[i]);
      match req.requestType {
        case Set =>
          s.data := s.data[req.key.value[0] := req.value.value];
        case Del =>
          var _ := s.RemoveKeys(req.key.value);
        case _ =>
      }
      ReplaySnoc(old(s.data), lines[..i], lines[i]);
      assert lines[..i + 1] == lines[..i] + [lines[i]];
      i := i + 1;
    }
    assert lines[..i] == lines;
    r := Rebuilt;
  }

  /**
   * Start-up of the server binary: a server over the existing file `log`
   * with an empty map, then a replay of that file; a failed replay is only
   * logged and the server is returned, ready to serve, either way.
   */
  method StartServer(log: string, fault: ReadFault) returns (s: Server)
    ensures fresh(s)
    ensures s.aof == log
    ensures s.data == Replay(map[], LinesRead(Lines(log), fault))
  {
    s := new Server(log);
    var _ := RebuildDataFromAof(s, fault);
  }
}
