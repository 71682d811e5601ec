/**
 * The command-line client: one line typed by the user becomes either a
 * request to send or the end of the client.  Keywords are lower case and
 * the line is split at every space.
 */
module ClientMain {
  import opened Protocol
  import opened Text

  datatype ClientAction = Send(req: Request) | ExitClient

  /** A line as `read_line` returns it: terminated by a line feed. */
  predicate Terminated(input: string)
  {
    |input| >= 1 && input[|input| - 1] == '\n'
  }

  /** The line without its final line feed. */
  function Stripped(input: string): string
    requires Terminated(input)
  {
    input[..|input| - 1]
  }

  /**
   * What the client does with one input line: "ping ..." sends Ping (extra
   * pieces ignored), "set k v" sends Set, "get k" sends Get, "del ..." sends
   * Del of all the other pieces (possibly none), "exit" alone ends the
   * client, and anything else sends Illegal.  The client never sends Exit,
   * and every request it sends is one the server can handle.
   */
  function ClientCommand(input: string): (a: ClientAction)
    requires Terminated(input)
    ensures a.Send? ==> WellFormed(a.req) && a.req.requestType != Exit
  {
    var t := Split(Stripped(input), ' ');
    if t[0] == "ping" then Send(Bare(Ping))
    else if t[0] == "set" && |t| == 3 then Send(Request(Some([t[1]]), Some(t[2]), Set))
    else if t[0] == "get" && |t| == 2 then Send(Request(Some([t[1]]), None, Get))
    else if t[0] == "del" then Send(Request(Some(t[1..]), None, Del))
    else if t[0] == "exit" && |t| == 1 then ExitClient
    else Send(Bare(Illegal))
  }

  /** The body of the client's loop for one line, up to sending the request. */
  method ParseInput(input: string) returns (a: ClientAction)
    requires Terminated(input)
    ensures a == ClientCommand(input)
  {
    var line := input[..|input| - 1];
    var tokens := Split(line, ' ');
    var req := Bare(Illegal);
    if tokens[0] == "ping" {
      req := Bare(Ping);
    } else if tokens[0] == "set" && |tokens| == 3 {
      req := Request(Some([tokens[1]]), Some(tokens[2]), Set);
    } else if tokens[0] == "get" && |tokens| == 2 {
      req := Request(Some([tokens[1]]), None, Get);
    } else if tokens[0] == "del" {
      var tmp := [];
      for i := 1 to |tokens|
        invariant tmp == tokens[1..i]
      {
        tmp := tmp + [tokens[i]];
      }
      assert tokens[1..|tokens|] == tokens[1..];
      req := Request(Some(tmp), None, Del);
    } else if tokens[0] == "exit" && |tokens| == 1 {
      return ExitClient;
    }
    a := Send(req);
  }

  /**
   * Which action a line leads to, stated without splitting: by its keyword
   * and how many spaces it holds.
   */
  lemma ClientCommandKind(input: string)
    requires Terminated(input)
    ensures var a, kw, n := ClientCommand(input), Keyword(Stripped(input)), Count(Stripped(input), ' ');
      && (a == Send(Bare(Ping)) <==> kw == "ping")
      && (a.Send? && a.req.requestType == Set <==> kw == "set" && n == 2)
      && (a.Send? && a.req.requestType == Get <==> kw == "get" && n == 1)
      && (a.Send? && a.req.requestType == Del <==> kw == "del")
      && (a == ExitClient <==> kw == "exit" && n == 0)
      && (a == Send(Bare(Illegal)) <==>
            kw != "ping" && kw != "del" && !(kw == "set" && n == 2) &&
            !(kw == "get" && n == 1) && !(kw == "exit" && n == 0))
  {
    SplitHead(Stripped(input), ' ');
    SplitLength(Stripped(input), ' ');
  }

  /** The client sends Set of `k` to `v` exactly for the line "set k v" with space-free `k` and `v`. */
  lemma ClientSetIff(input: string, k: string, v: string)
    requires Terminated(input)
    ensures ClientCommand(input) == Send(Request(Some([k]), Some(v), Set)) <==>
      Stripped(input) == "set " + k + " " + v && ' ' !in k && ' ' !in v
  {
    var ts := ["set", k, v];
    assert Join(ts, ' ') == "set " + k + " " + v by {
      JoinCons(k, [v], ' ');
      JoinCons("set", [k, v], ' ');
    }
    if ClientCommand(input) == Send(Request(Some([k]), Some(v), Set)) {
      assert Split(Stripped(input), ' ') == ts;
    }
    if Stripped(input) == "set " + k + " " + v && ' ' !in k && ' ' !in v {
      SplitJoin(ts, ' ');
    }
  }

  /** The client sends Get of `k` exactly for the line "get k" with space-free `k`. */
  lemma ClientGetIff(input: string, k: string)
    requires Terminated(input)
    ensures ClientCommand(input) == Send(Request(Some([k]), None, Get)) <==>
      Stripped(input) == "get " + k && ' ' !in k
  {
    var ts := ["get", k];
    assert Join(ts, ' ') == "get " + k by {
      JoinCons("get", [k], ' ');
    }
    if ClientCommand(input) == Send(Request(Some([k]), None, Get)) {
      assert Split(Stripped(input), ' ') == ts;
    }
    if Stripped(input) == "get " + k && ' ' !in k {
      SplitJoin(ts, ' ');
    }
  }

  /** The client sends Del of `keys` exactly for "del" followed by the space-free keys, each after one space. */
  lemma ClientDelIff(input: string, keys: seq<string>)
    requires Terminated(input)
    ensures ClientCommand(input) == Send(Request(Some(keys), None, Del)) <==>
      Stripped(input) == Join(["del"] + keys, ' ') && SeparatorFree(keys, ' ')
  {
    var ts := ["del"] + keys;
    assert ts[1..] == keys;
    if ClientCommand(input) == Send(Request(Some(keys), None, Del)) {
      assert Split(Stripped(input), ' ') == ts;
    }
    if Stripped(input) == Join(ts, ' ') && SeparatorFree(keys, ' ') {
      SplitJoin(ts, ' ');
    }
  }
}
