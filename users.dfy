/** `transform_to_users`: one row per distinct user, taken from the rows
    whose Agent field parses, keeping the first occurrence of every id. */
module Users {
  import opened Wrappers
  import opened Frames
  import opened Agents
  import opened Facts

  /** The ids that occur in a list of agents. */
  function Ids(agents: seq<Agent>): set<nat> {
    set a | a in agents :: a.id
  }

  lemma IdsSnoc(agents: seq<Agent>, a: Agent)
    ensures Ids(agents + [a]) == Ids(agents) + {a.id}
  {
    assert a in agents + [a];
    assert forall b :: b in agents ==> b in agents + [a];
  }

  /** The position of the first agent with the given id. */
  function FirstWith(agents: seq<Agent>, id: nat): (i: nat)
    requires id in Ids(agents)
    ensures i < |agents| && agents[i].id == id
    ensures forall j :: 0 <= j < i ==> agents[j].id != id
    decreases |agents|
  {
    var n := |agents| - 1;
    assert agents == agents[..n] + [agents[n]];
    IdsSnoc(agents[..n], agents[n]);
    if id in Ids(agents[..n]) then
      var i := FirstWith(agents[..n], id);
      assert agents[..n][i] == agents[i];
      i
    else
      assert forall j :: 0 <= j < n ==> agents[j] in agents[..n];
      n
  }

  lemma FirstWithSnoc(agents: seq<Agent>, a: Agent, id: nat)
    requires id in Ids(agents)
    ensures id in Ids(agents + [a]) && FirstWith(agents + [a], id) == FirstWith(agents, id)
  {
    IdsSnoc(agents, a);
    assert (agents + [a])[..|agents|] == agents;
  }

  /** `drop_duplicates(subset=["user_id"], keep="first")`: the first agent
      with every id, in the order of the input. */
  function DedupById(agents: seq<Agent>): (r: seq<Agent>)
    ensures Ids(r) == Ids(agents)
    ensures forall k :: 0 <= k < |r| ==> r[k].id in Ids(agents) && r[k] == agents[FirstWith(agents, r[k].id)]
    ensures forall k, l :: 0 <= k < l < |r| ==> FirstWith(agents, r[k].id) < FirstWith(agents, r[l].id)
    decreases |agents|
  {
    if agents == [] then []
    else
      var n := |agents| - 1;
      var front := agents[..n];
      var a := agents[n];
      assert agents == front + [a];
      var prev := DedupById(front);
      IdsSnoc(front, a);
      forall k | 0 <= k < |prev|
        ensures FirstWith(agents, prev[k].id) == FirstWith(front, prev[k].id)
        ensures prev[k] == agents[FirstWith(agents, prev[k].id)]
      {
        FirstWithSnoc(front, a, prev[k].id);
      }
      if a.id in Ids(front) then prev
      else
        var r := prev + [a];
        IdsSnoc(prev, a);
        assert FirstWith(agents, a.id) == n;
        assert forall k :: 0 <= k < |prev| ==> r[k] == prev[k];
        r
  }

  /** The kept agents carry distinct ids. */
  lemma DedupDistinctIds(agents: seq<Agent>)
    ensures forall k, l :: 0 <= k < l < |DedupById(agents)| ==> DedupById(agents)[k].id != DedupById(agents)[l].id
  {
  }

  /** Every agent whose id has not occurred before is kept. */
  lemma DedupKeepsFirst(agents: seq<Agent>, i: nat)
    requires i < |agents| && forall j :: 0 <= j < i ==> agents[j].id != agents[i].id
    ensures agents[i] in DedupById(agents)
  {
    var r := DedupById(agents);
    assert agents[i] in agents;
    assert agents[i].id in Ids(r);
    var b :| b in r && b.id == agents[i].id;
    var k :| 0 <= k < |r| && r[k] == b;
    assert FirstWith(agents, agents[i].id) == i;
  }

  /** A list whose ids are already distinct is left as it is, so
      deduplicating twice is deduplicating once. */
  lemma {:induction false} DedupOfDistinct(agents: seq<Agent>)
    requires forall k, l :: 0 <= k < l < |agents| ==> agents[k].id != agents[l].id
    ensures DedupById(agents) == agents
    decreases |agents|
  {
    if agents != [] {
      var n := |agents| - 1;
      var front := agents[..n];
      assert agents == front + [agents[n]];
      DedupOfDistinct(front);
      forall b | b in front ensures b.id != agents[n].id {
        var k :| 0 <= k < n && front[k] == b;
        assert agents[k] == b;
      }
    }
  }

  lemma DedupIdempotent(agents: seq<Agent>)
    ensures DedupById(DedupById(agents)) == DedupById(agents)
  {
    DedupOfDistinct(DedupById(agents));
  }

  // ---------------------------------------------------------------------
  // The users table

  const UserColumns: seq<string> := ["user_id", "namn"]

  /** The agents of the rows whose Agent field parses, in row order
      (`users_data`). */
  function AgentsOf(ps: seq<Parsed>): (r: seq<Agent>)
    ensures |r| == |ps| && forall k :: 0 <= k < |ps| ==> r[k] == ps[k].agent
  {
    seq(|ps|, k requires 0 <= k < |ps| => ps[k].agent)
  }

  function UserRow(a: Agent): seq<Cell> {
    [Int(a.id), Text(a.name)]
  }

  function UserRows(agents: seq<Agent>): (r: seq<seq<Cell>>)
    ensures |r| == |agents| && forall k :: 0 <= k < |agents| ==> r[k] == UserRow(agents[k])
  {
    seq(|agents|, k requires 0 <= k < |agents| => UserRow(agents[k]))
  }

  /** What `transform_to_users` returns. It raises on the first row when the
      Agent label is duplicated; with no parsed row the table is empty but
      still has the two columns. */
  function UsersTable(f: Frame): (r: Result<Table, Crash>)
    requires Aligned(f)
    ensures r.Err? <==> |f.rows| > 0 && Occurrences(f.columns, AgentColumn) > 1
    ensures r.Ok? ==> r.value.columns == UserColumns && WellFormed(r.value)
  {
    if |f.rows| > 0 && Occurrences(f.columns, AgentColumn) > 1 then Err(DuplicateColumn)
    else Ok(Table(UserColumns, UserRows(DedupById(AgentsOf(ParsedRows(f))))))
  }

  /** Every agent's id is the id of some kept agent. */
  lemma DedupCovers(agents: seq<Agent>, p: nat) returns (k: nat)
    requires p < |agents|
    ensures k < |DedupById(agents)| && DedupById(agents)[k].id == agents[p].id
  {
    var r := DedupById(agents);
    assert agents[p] in agents;
    assert agents[p].id in Ids(r);
    var b :| b in r && b.id == agents[p].id;
    k :| 0 <= k < |r| && r[k] == b;
  }

  /** No two rows of the users table share an id. */
  lemma UsersDistinct(f: Frame)
    requires Aligned(f) && UsersTable(f).Ok?
    ensures var t := UsersTable(f).value;
      forall k, l :: 0 <= k < l < |t.rows| ==> t.rows[k][0] != t.rows[l][0]
  {
    DedupDistinctIds(AgentsOf(ParsedRows(f)));
  }

  /** Every row whose Agent field parses has its id in the users table. */
  lemma UsersCover(f: Frame, i: nat)
    requires Aligned(f) && UsersTable(f).Ok?
    requires i < |f.rows| && AgentOf(f.columns, f.rows[i]).Ok? && AgentOf(f.columns, f.rows[i]).value.Some?
    ensures var t := UsersTable(f).value;
      exists k :: 0 <= k < |t.rows| && t.rows[k][0] == Int(AgentOf(f.columns, f.rows[i]).value.value.id)
  {
    var p := ParsedAt(f, i);
    var k := DedupCovers(AgentsOf(ParsedRows(f)), p);
    assert UsersTable(f).value.rows[k][0] == Int(DedupById(AgentsOf(ParsedRows(f)))[k].id);
  }

  /** A row whose Agent field parses is a parsed row. */
  lemma ParsedAt(f: Frame, i: nat) returns (p: nat)
    requires Aligned(f) && i < |f.rows| && AgentOf(f.columns, f.rows[i]).Ok? && AgentOf(f.columns, f.rows[i]).value.Some?
    ensures p < |ParsedRows(f)| && ParsedRows(f)[p].agent == AgentOf(f.columns, f.rows[i]).value.value
  {
    var ps := ParsedRows(f);
    assert exists k :: 0 <= k < |ps| && ps[k].row == i;
    p :| 0 <= p < |ps| && ps[p].row == i;
    assert AgentOf(f.columns, f.rows[ps[p].row]) == Ok(Some(ps[p].agent));
  }

  /** Every row of the users table is the id and stripped name of the first
      row that parses to that id. */
  lemma UsersFromFirst(f: Frame, k: nat)
    requires Aligned(f) && UsersTable(f).Ok? && k < |UsersTable(f).value.rows|
    ensures exists i :: (0 <= i < |f.rows| && FirstAgentRow(f, i) &&
                         UsersTable(f).value.rows[k] == UserRow(AgentOf(f.columns, f.rows[i]).value.value))
  {
    var ps := ParsedRows(f);
    var agents := AgentsOf(ps);
    var r := DedupById(agents);
    var p := FirstWith(agents, r[k].id);
    var i := ps[p].row;
    ParsedFirst(f, p);
    assert r[k] == AgentOf(f.columns, f.rows[i]).value.value;
    assert UsersTable(f).value.rows[k] == UserRow(r[k]);
  }

  /** A parsed row whose id no earlier parsed row has is the first row with
      that id. */
  lemma ParsedFirst(f: Frame, p: nat)
    requires Aligned(f) && p < |ParsedRows(f)|
    requires forall q :: 0 <= q < p ==> ParsedRows(f)[q].agent.id != ParsedRows(f)[p].agent.id
    ensures FirstAgentRow(f, ParsedRows(f)[p].row)
  {
    var ps := ParsedRows(f);
    forall j | 0 <= j < ps[p].row && AgentOf(f.columns, f.rows[j]).Ok? && AgentOf(f.columns, f.rows[j]).value.Some?
      ensures AgentOf(f.columns, f.rows[j]).value.value.id != ps[p].agent.id
    {
      var q := ParsedEarlier(f, p, j);
    }
  }

  /** A row before parsed row `p` that parses is an earlier parsed row. */
  lemma ParsedEarlier(f: Frame, p: nat, j: nat) returns (q: nat)
    requires Aligned(f) && p < |ParsedRows(f)| && j < ParsedRows(f)[p].row
    requires AgentOf(f.columns, f.rows[j]).Ok? && AgentOf(f.columns, f.rows[j]).value.Some?
    ensures q < p && ParsedRows(f)[q].agent == AgentOf(f.columns, f.rows[j]).value.value
  {
    var ps := ParsedRows(f);
    assert exists k :: 0 <= k < |ps| && ps[k].row == j;
    q :| 0 <= q < |ps| && ps[q].row == j;
    if q >= p {
      assert false;
    }
    assert AgentOf(f.columns, f.rows[ps[q].row]) == Ok(Some(ps[q].agent));
  }

  /** Row `i` parses, and no earlier row parses to the same id. */
  ghost predicate FirstAgentRow(f: Frame, i: nat)
    requires Aligned(f)
  {
    && i < |f.rows| && AgentOf(f.columns, f.rows[i]).Ok? && AgentOf(f.columns, f.rows[i]).value.Some?
    && forall j :: 0 <= j < i && AgentOf(f.columns, f.rows[j]).Ok? && AgentOf(f.columns, f.rows[j]).value.Some? ==>
         AgentOf(f.columns, f.rows[j]).value.value.id != AgentOf(f.columns, f.rows[i]).value.value.id
  }

  // ---------------------------------------------------------------------
  // The row loop

  /** After `i` rows, `users_data` holds the agents of the parsed rows so far. */
  predicate Gathered(f: Frame, i: nat, agents: seq<Agent>)
    requires Aligned(f) && i <= |f.rows|
  {
    && (i > 0 ==> Occurrences(f.columns, AgentColumn) <= 1)
    && agents == AgentsOf(Kept(Outcomes(f)[..i]))
  }

  lemma GatherStep(f: Frame, i: nat, agents: seq<Agent>)
    requires Aligned(f) && i < |f.rows| && Gathered(f, i, agents) && AgentOf(f.columns, f.rows[i]).Ok?
    ensures var o := AgentOf(f.columns, f.rows[i]).value;
      Gathered(f, i + 1, if o.Some? then agents + [o.value] else agents)
  {
    var outs := Outcomes(f);
    var o := AgentOf(f.columns, f.rows[i]).value;
    var ps := Kept(outs[..i]);
    assert Kept(outs[..i + 1]) == if o.Some? then ps + [Parsed(i, o.value)] else ps by {
      KeptStep(outs, i);
    }
    if o.Some? {
      AgentsOfSnoc(ps, Parsed(i, o.value));
    }
  }

  lemma AgentsOfSnoc(ps: seq<Parsed>, p: Parsed)
    ensures AgentsOf(ps + [p]) == AgentsOf(ps) + [p.agent]
  {
  }

  lemma GatherDone(f: Frame, agents: seq<Agent>)
    requires Aligned(f) && Gathered(f, |f.rows|, agents)
    ensures UsersTable(f) == Ok(Table(UserColumns, UserRows(DedupById(agents))))
  {
    assert Outcomes(f)[..|f.rows|] == Outcomes(f);
  }

  /** `transform_to_users`: the row loop collecting `users_data`, then
      `drop_duplicates`. */
  method TransformToUsers(f: Frame) returns (r: Result<Table, Crash>)
    requires Aligned(f)
    ensures r == UsersTable(f)
  {
    var agents: seq<Agent> := [];
    var i := 0;
    assert Outcomes(f)[..0] == [];
    while i < |f.rows|
      invariant 0 <= i <= |f.rows|
      invariant Gathered(f, i, agents)
    {
      var parsed := AgentOf(f.columns, f.rows[i]);
      if parsed.Err? {
        return Err(parsed.error);
      }
      GatherStep(f, i, agents);
      if parsed.value.Some? {
        agents := agents + [parsed.value.value];
      }
      i := i + 1;
    }
    GatherDone(f, agents);
    if agents == [] {
      return Ok(Table(UserColumns, []));
    }
    return Ok(Table(UserColumns, UserRows(DedupById(agents))));
  }
}
