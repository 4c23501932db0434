/** The catalogue of clusters and nodes: the two tables with their constraints, the requests that change
    them, and the paged listings. A visitor that fails is rolled back; one that succeeds is committed and
    then run a second time on the finished transaction. Texts hold one char for each character. */
module Catalogue {
  import opened GoStrings
  import opened Paging
  import opened PagedWalk

  datatype ClusterRow = ClusterRow(name: string, description: Option<string>, password: string)

  datatype NodeRow =
    NodeRow(clusterID: int, nodeID: string, host: string, port: int, connected: bool, isCandidate: bool)

  /** The rows by ID, and the next values of the two ID sequences. */
  datatype Tables = Tables(clusters: map<int, ClusterRow>, nodes: map<int, NodeRow>, nextCluster: int, nextNode: int)

  const EMPTY_TABLES := Tables(map[], map[], 1, 1)

  /** VARCHAR(255). */
  const VARCHAR := 255

  const OK := 200
  const CREATED := 201
  const BAD_REQUEST := 400
  const UNAUTHORIZED := 401
  const NOT_FOUND := 404
  const CONFLICT := 409
  const INTERNAL_SERVER_ERROR := 500

  /** An over-long text is accepted when all characters too many are spaces, and is stored without them. */
  predicate FitsColumn(text: string) {
    forall k | VARCHAR <= k < |text| :: text[k] == ' '
  }

  function Stored(text: string): string { if |text| > VARCHAR then text[..VARCHAR] else text }

  /** The schema's constraints: names unique, every node in an existing cluster, texts short enough; and
      IDs below the sequences. */
  ghost predicate Valid(t: Tables) {
    && (forall id | id in t.clusters :: id < t.nextCluster && |t.clusters[id].name| <= VARCHAR)
    && (forall a, b | a in t.clusters && b in t.clusters && a != b :: t.clusters[a].name != t.clusters[b].name)
    && (forall n | n in t.nodes ::
          && n < t.nextNode && t.nodes[n].clusterID in t.clusters
          && |t.nodes[n].nodeID| <= VARCHAR && |t.nodes[n].host| <= VARCHAR)
  }

  predicate Named(t: Tables, id: int, name: string) { id in t.clusters && t.clusters[id].name == name }

  /** `SELECT id FROM clusters WHERE name = $1`. */
  ghost function ClusterID(t: Tables, name: string): (r: Option<int>)
    ensures match r case Some(id) => Named(t, id, name) case None => forall id :: !Named(t, id, name)
  {
    if exists id :: Named(t, id, name) then
      var id :| Named(t, id, name);
      Some(id)
    else None
  }

  /** A node row of the cluster with this name. */
  predicate InCluster(t: Tables, n: int, name: string) { n in t.nodes && Named(t, t.nodes[n].clusterID, name) }

  // ---------------------------------------------------------------- requests that change the tables

  datatype Request =
    | CreateCluster(name: string, description: string, password: string)
    | DeleteCluster(name: string)
    | CreateNode(cluster: string, nodeID: string, host: string, port: int)
    | DeleteNode(cluster: string, nodeID: string)

  /** The node with this ID that `GetNodeByNodeID` finds in the cluster, and likewise by host and port. */
  ghost predicate HasNodeID(t: Tables, cluster: string, nodeID: string) {
    exists n :: InCluster(t, n, cluster) && t.nodes[n].nodeID == nodeID
  }

  ghost predicate HasHostPort(t: Tables, cluster: string, host: string, port: int) {
    exists n :: InCluster(t, n, cluster) && t.nodes[n].host == host && t.nodes[n].port == port
  }

  /** How one run of a visitor ends: without an error, or with one and the status set for it. */
  datatype Outcome = Done | Failed(status: int)

  /** A visitor run in a transaction that is open or finished. Each begins with `GetSession`, which a
      finished transaction cannot answer. */
  ghost function Visitor(t: Tables, open: bool, session: bool, req: Request): Outcome {
    if !open || !session then Failed(UNAUTHORIZED) else
    match req
    case CreateCluster(name, _, _) =>
      if !FitsColumn(name) || ClusterID(t, Stored(name)).Some? then Failed(BAD_REQUEST) else Done
    case DeleteCluster(name) =>
      if ClusterID(t, name).None? then Failed(INTERNAL_SERVER_ERROR) else Done
    case CreateNode(cluster, nodeID, host, port) =>
      // both guards are asked without a cluster name, that is about the cluster named ""
      if ClusterID(t, cluster).None? then Failed(NOT_FOUND)
      else if HasHostPort(t, "", host, port) || HasNodeID(t, "", nodeID) then Failed(CONFLICT)
      else if !FitsColumn(nodeID) || !FitsColumn(host) then Failed(BAD_REQUEST)
      else Done
    case DeleteNode(cluster, nodeID) =>
      if ClusterID(t, cluster).None? || !HasNodeID(t, cluster, nodeID) then Failed(NOT_FOUND) else Done
  }

  /** The first run of the visitor ends without an error and is committed. */
  ghost predicate Succeeds(t: Tables, session: bool, req: Request) {
    Visitor(t, true, session, req).Done?
  }

  /** The tables after a request; an error leaves them as they were. */
  ghost function After(t: Tables, session: bool, req: Request): Tables {
    if !Succeeds(t, session, req) then t else
    match req
    case CreateCluster(name, _, _) =>
      var row := ClusterRow(Stored(name), None, "");
      t.(clusters := t.clusters[t.nextCluster := row], nextCluster := t.nextCluster + 1)
    case DeleteCluster(name) =>
      var id := ClusterID(t, name).value;
      t.(clusters := t.clusters - {id},
         nodes := map n | n in t.nodes && t.nodes[n].clusterID != id :: t.nodes[n])
    case CreateNode(cluster, nodeID, host, port) =>
      var row := NodeRow(ClusterID(t, cluster).value, Stored(nodeID), Stored(host), port, false, false);
      t.(nodes := t.nodes[t.nextNode := row], nextNode := t.nextNode + 1)
    case DeleteNode(cluster, nodeID) =>
      t.(nodes := map n | n in t.nodes && !(InCluster(t, n, cluster) && t.nodes[n].nodeID == nodeID) :: t.nodes[n])
  }

  /** The status a handler writes when `VisitTx` returns no error. */
  function SuccessStatus(req: Request): int {
    match req
    case CreateCluster(_, _, _) => CREATED
    case CreateNode(_, _, _, _) => CREATED
    case _ => OK
  }

  /** The status sent. A visitor that fails is answered by its own status; one that succeeds is run again
      after the commit, and it is that run's error that is returned. */
  ghost function Answer(t: Tables, session: bool, req: Request): int {
    match Visitor(t, true, session, req)
    case Failed(status) => status
    case Done =>
      match Visitor(After(t, session, req), false, session, req)
      case Failed(status) => status
      case Done => SuccessStatus(req)
  }

  ghost predicate SameRows(t: Tables, t2: Tables) {
    t2.clusters == t.clusters && t2.nodes == t.nodes
  }

  /** Every request is answered with an error; with a session the answer is "unauthorized" exactly when
      the request has changed the rows. */
  lemma ChangesAreAnsweredUnauthorized(t: Tables, session: bool, req: Request)
    requires Valid(t)
    ensures Answer(t, session, req) >= BAD_REQUEST
    ensures Succeeds(t, session, req) <==> !SameRows(t, After(t, session, req))
    ensures session ==> (Answer(t, session, req) == UNAUTHORIZED <==> !SameRows(t, After(t, session, req)))
  {
    var t2 := After(t, session, req);
    if Succeeds(t, session, req) {
      match req
      case CreateCluster(_, _, _) => assert t.nextCluster in t2.clusters && t.nextCluster !in t.clusters;
      case DeleteCluster(name) => assert ClusterID(t, name).value !in t2.clusters;
      case CreateNode(_, _, _, _) => assert t.nextNode in t2.nodes && t.nextNode !in t.nodes;
      case DeleteNode(cluster, nodeID) =>
        var n :| InCluster(t, n, cluster) && t.nodes[n].nodeID == nodeID;
        assert n !in t2.nodes;
    }
  }

  /** What a new cluster was said to be described and protected by is not stored, and an over-long name
      is stored so that no request with that name finds the cluster. */
  lemma CreateClusterForgets(t: Tables, name: string, description: string, password: string)
    requires Valid(t) && Succeeds(t, true, CreateCluster(name, description, password))
    ensures var t2 := After(t, true, CreateCluster(name, description, password));
            && ClusterID(t2, Stored(name)).Some?
            && t2.clusters[ClusterID(t2, Stored(name)).value] == ClusterRow(Stored(name), None, "")
            && (ClusterID(t2, name).Some? <==> |name| <= VARCHAR)
  {
    AfterKeepsValid(t, true, CreateCluster(name, description, password));
    var t2 := After(t, true, CreateCluster(name, description, password));
    assert Named(t2, t.nextCluster, Stored(name));
  }

  ghost function AfterAll(t: Tables, history: seq<(bool, Request)>): Tables
    decreases |history|
  {
    if history == [] then t else AfterAll(After(t, history[0].0, history[0].1), history[1..])
  }

  // ---------------------------------------------------------------- what every request keeps

  lemma AfterKeepsValid(t: Tables, session: bool, req: Request)
    requires Valid(t)
    ensures Valid(After(t, session, req))
  {
    var t2 := After(t, session, req);
    if Succeeds(t, session, req) {
      match req
      case CreateCluster(name, _, _) =>
        forall id | id in t.clusters ensures t.clusters[id].name != Stored(name) {
          assert !Named(t, id, Stored(name));
        }
      case DeleteCluster(name) =>
      case CreateNode(cluster, nodeID, host, port) =>
        assert Named(t, ClusterID(t, cluster).value, cluster);
      case DeleteNode(cluster, nodeID) =>
    }
  }

  /** Over any sequence of requests, with or without a session, whether they succeed or not: cluster
      names stay unique and every node belongs to an existing cluster. */
  lemma {:induction false} AllRequestsKeepValid(t: Tables, history: seq<(bool, Request)>)
    requires Valid(t)
    ensures Valid(AfterAll(t, history))
    decreases |history|
  {
    if history != [] {
      AfterKeepsValid(t, history[0].0, history[0].1);
      AllRequestsKeepValid(After(t, history[0].0, history[0].1), history[1..]);
    }
  }

  // ---------------------------------------------------------------- what the answers tell

  function RowCount(t: Tables): nat { |t.clusters.Keys| + |t.nodes.Keys| }

  predicate Deletes(req: Request) { req.DeleteCluster? || req.DeleteNode? }

  lemma FewerElements<T>(a: set<T>, b: set<T>)
    requires a <= b
    ensures |a| <= |b| && (|a| == |b| ==> a == b)
  {
    assert b == a + (b - a);
  }

  lemma RowsLost(t: Tables, t2: Tables)
    requires t2.clusters.Keys <= t.clusters.Keys && t2.nodes.Keys <= t.nodes.Keys
    requires (exists id :: id in t.clusters && id !in t2.clusters) || (exists n :: n in t.nodes && n !in t2.nodes)
    ensures RowCount(t2) < RowCount(t)
  {
    FewerElements(t2.clusters.Keys, t.clusters.Keys);
    FewerElements(t2.nodes.Keys, t.nodes.Keys);
  }

  /** A request that succeeds adds one row, or removes one at least. */
  lemma RowsOfRequest(t: Tables, session: bool, req: Request)
    requires Valid(t) && Succeeds(t, session, req)
    ensures var t2 := After(t, session, req);
            if Deletes(req) then RowCount(t2) < RowCount(t) else RowCount(t2) == RowCount(t) + 1
  {
    var t2 := After(t, session, req);
    match req
    case CreateCluster(_, _, _) => OneKeyMore(t.clusters, t.nextCluster, t2.clusters[t.nextCluster]);
    case CreateNode(_, _, _, _) => OneKeyMore(t.nodes, t.nextNode, t2.nodes[t.nextNode]);
    case DeleteCluster(name) =>
      assert ClusterID(t, name).value in t.clusters && ClusterID(t, name).value !in t2.clusters;
      RowsLost(t, t2);
    case DeleteNode(cluster, nodeID) =>
      var n :| InCluster(t, n, cluster) && t.nodes[n].nodeID == nodeID;
      assert n in t.nodes && n !in t2.nodes;
      RowsLost(t, t2);
  }

  lemma OneKeyMore<V>(m: map<int, V>, key: int, value: V)
    requires key !in m
    ensures |m[key := value].Keys| == |m.Keys| + 1
  {
    assert m[key := value].Keys == m.Keys + {key};
  }

  /** How many of the requests are answered "unauthorized". */
  ghost function UnauthorizedCount(t: Tables, history: seq<(bool, Request)>): nat
    decreases |history|
  {
    if history == [] then 0 else
    (if Answer(t, history[0].0, history[0].1) == UNAUTHORIZED then 1 else 0)
    + UnauthorizedCount(After(t, history[0].0, history[0].1), history[1..])
  }

  /** How many of them change the rows. */
  ghost function ChangeCount(t: Tables, history: seq<(bool, Request)>): nat
    decreases |history|
  {
    if history == [] then 0 else
    var t1 := After(t, history[0].0, history[0].1);
    (if SameRows(t, t1) then 0 else 1) + ChangeCount(t1, history[1..])
  }

  /** Over any requests with a session there are as many answers "unauthorized" as changes of the rows:
      when none is answered "unauthorized" the rows end as they were,
      and without deletions each such answer stands for one row more, without creations for one row less
      at least. */
  lemma {:induction false} UnauthorizedMeansChanged(t: Tables, history: seq<(bool, Request)>)
    requires Valid(t) && forall i | 0 <= i < |history| :: history[i].0
    ensures var count, t2 := UnauthorizedCount(t, history), AfterAll(t, history);
            && count == ChangeCount(t, history)
            && (count == 0 ==> SameRows(t, t2))
            && ((forall i | 0 <= i < |history| :: !Deletes(history[i].1)) ==> RowCount(t2) == RowCount(t) + count)
            && ((forall i | 0 <= i < |history| :: Deletes(history[i].1)) ==> RowCount(t2) <= RowCount(t) - count)
    decreases |history|
  {
    hide Valid, After, Answer, RowCount, Deletes;
    if history != [] {
      var session, req := history[0].0, history[0].1;
      var t1 := After(t, session, req);
      assert session;
      AfterKeepsValid(t, session, req);
      ChangesAreAnsweredUnauthorized(t, session, req);
      UnauthorizedMeansChanged(t1, history[1..]);
      if SameRows(t, t1) {
        SameRowsCount(t, t1, AfterAll(t1, history[1..]));
      } else {
        RowsOfRequest(t, session, req);
      }
    }
  }

  lemma SameRowsCount(t: Tables, t1: Tables, t2: Tables)
    requires SameRows(t, t1)
    ensures RowCount(t1) == RowCount(t) && (SameRows(t1, t2) <==> SameRows(t, t2))
  {
  }

  /** So, when the requests only create or only delete, the rows differ in the end exactly when one of
      them was answered "unauthorized". */
  lemma RowsDifferAfterUnauthorized(t: Tables, history: seq<(bool, Request)>)
    requires Valid(t) && forall i | 0 <= i < |history| :: history[i].0
    requires (forall i | 0 <= i < |history| :: !Deletes(history[i].1))
          || (forall i | 0 <= i < |history| :: Deletes(history[i].1))
    ensures !SameRows(t, AfterAll(t, history)) <==> UnauthorizedCount(t, history) > 0
  {
    hide Valid, UnauthorizedCount, AfterAll, Deletes;
    UnauthorizedMeansChanged(t, history);
  }

  /** The key columns that the listings page through. */
  function ClusterKeys(t: Tables): Keys { map id | id in t.clusters :: t.clusters[id].name }

  function NodeKeys(t: Tables, cluster: string): Keys {
    map n | n in t.nodes && InCluster(t, n, cluster) :: t.nodes[n].nodeID
  }

  function ClusterOf(req: Request): string {
    match req
    case CreateCluster(name, _, _) => Stored(name)
    case DeleteCluster(name) => name
    case CreateNode(cluster, _, _, _) => cluster
    case DeleteNode(cluster, _) => cluster
  }

  /** Two states with the same rows for the nodes of a cluster. */
  ghost predicate SameNodes(t: Tables, t2: Tables, cluster: string) {
    forall n :: (InCluster(t2, n, cluster) <==> InCluster(t, n, cluster))
             && (InCluster(t, n, cluster) ==> t2.nodes[n] == t.nodes[n])
  }

  lemma OneRequestElsewhere(t: Tables, session: bool, req: Request, other: string)
    requires Valid(t) && other != ClusterOf(req)
    ensures SameNodes(t, After(t, session, req), other)
  {
  }

  /** Over any requests that name other clusters the nodes of a cluster, and with them every page of its
      nodes, stay as they were. */
  lemma {:induction false} OtherClustersUntouched(t: Tables, history: seq<(bool, Request)>, other: string)
    requires Valid(t) && forall i | 0 <= i < |history| :: ClusterOf(history[i].1) != other
    ensures var t2 := AfterAll(t, history);
            && SameNodes(t, t2, other)
            && forall less: Order, cursor | Collation(less) ::
                 Page(less, NodeKeys(t2, other), cursor) == Page(less, NodeKeys(t, other), cursor)
    decreases |history|
  {
    hide Page, Collation, ClusterOf;
    if history != [] {
      var t1 := After(t, history[0].0, history[0].1);
      AfterKeepsValid(t, history[0].0, history[0].1);
      OneRequestElsewhere(t, history[0].0, history[0].1, other);
      OtherClustersUntouched(t1, history[1..], other);
    }
    assert NodeKeys(AfterAll(t, history), other) == NodeKeys(t, other);
  }

  /** When a cluster is created, and what a table of clusters is then: one row more with the name as
      stored, if the name fits and no cluster has it; otherwise the same. */
  lemma CreateClusterExact(t: Tables, session: bool, name: string, description: string, password: string)
    requires Valid(t)
    ensures var req := CreateCluster(name, description, password);
            var t2, stored := After(t, session, req), if |name| > 255 then name[..255] else name;
            var accepted := session && (forall k | 255 <= k < |name| :: name[k] == ' ')
                            && forall id | id in t.clusters :: t.clusters[id].name != stored;
            && t2.nodes == t.nodes && t.nextCluster !in t.clusters
            && t2.clusters ==
                 (if accepted then t.clusters[t.nextCluster := ClusterRow(stored, None, "")] else t.clusters)
            && Answer(t, session, req) == if accepted || !session then 401 else 400
  {
    var stored := if |name| > 255 then name[..255] else name;
    assert stored == Stored(name);
    assert forall id :: Named(t, id, stored) <==> id in t.clusters && t.clusters[id].name == stored;
  }

  /** A node of the cluster with this name. */
  ghost predicate BelongsTo(t: Tables, n: int, cluster: string) {
    && n in t.nodes && t.nodes[n].clusterID in t.clusters
    && t.clusters[t.nodes[n].clusterID].name == cluster
  }

  /** When a node is created: its cluster exists, no node of the cluster named "" has its ID or its
      address, and its texts fit. */
  lemma CreateNodeExact(t: Tables, session: bool, cluster: string, nodeID: string, host: string, port: int, id: int)
    requires Valid(t) && id in t.clusters && t.clusters[id].name == cluster
    ensures var req := CreateNode(cluster, nodeID, host, port);
            var t2 := After(t, session, req);
            var twin := exists n :: BelongsTo(t, n, "")
                          && (t.nodes[n].nodeID == nodeID || (t.nodes[n].host == host && t.nodes[n].port == port));
            var fits := (forall k | 255 <= k < |nodeID| :: nodeID[k] == ' ')
                        && (forall k | 255 <= k < |host| :: host[k] == ' ');
            var row := NodeRow(id, if |nodeID| > 255 then nodeID[..255] else nodeID,
                               if |host| > 255 then host[..255] else host, port, false, false);
            && t2.clusters == t.clusters && t.nextNode !in t.nodes
            && t2.nodes == (if session && !twin && fits then t.nodes[t.nextNode := row] else t.nodes)
            && Answer(t, session, req) == if !session then 401 else if twin then 409 else if !fits then 400 else 401
  {
    assert Named(t, id, cluster);
    assert forall n, name :: BelongsTo(t, n, name) <==> InCluster(t, n, name);
    if HasNodeID(t, "", nodeID) {
      var n :| InCluster(t, n, "") && t.nodes[n].nodeID == nodeID;
      assert BelongsTo(t, n, "");
    }
    if HasHostPort(t, "", host, port) {
      var n :| InCluster(t, n, "") && t.nodes[n].host == host && t.nodes[n].port == port;
      assert BelongsTo(t, n, "");
    }
  }

  /** A node is deleted when its cluster has one with the ID, and then with all others of that ID. */
  lemma DeleteNodeExact(t: Tables, session: bool, cluster: string, nodeID: string)
    requires Valid(t)
    ensures var req := DeleteNode(cluster, nodeID);
            var t2 := After(t, session, req);
            && t2.clusters == t.clusters
            && (forall n :: n in t2.nodes <==>
                  n in t.nodes && !(session && BelongsTo(t, n, cluster) && t.nodes[n].nodeID == nodeID))
            && (forall n | n in t2.nodes :: t2.nodes[n] == t.nodes[n])
            && var found := exists n :: BelongsTo(t, n, cluster) && t.nodes[n].nodeID == nodeID;
               Answer(t, session, req) == if !session || found then 401 else 404
  {
    assert forall n :: BelongsTo(t, n, cluster) <==> InCluster(t, n, cluster);
    if n :| BelongsTo(t, n, cluster) && t.nodes[n].nodeID == nodeID {
      assert Named(t, t.nodes[n].clusterID, cluster) && InCluster(t, n, cluster);
      assert HasNodeID(t, cluster, nodeID);
    }
  }

  /** A node for a cluster that does not exist changes nothing. */
  lemma NoSuchCluster(t: Tables, session: bool, cluster: string, nodeID: string, host: string, port: int)
    requires Valid(t) && forall id | id in t.clusters :: t.clusters[id].name != cluster
    ensures After(t, session, CreateNode(cluster, nodeID, host, port)) == t
    ensures Answer(t, session, CreateNode(cluster, nodeID, host, port)) == if session then 404 else 401
  {
    assert forall id :: !Named(t, id, cluster);
  }

  function Creations(names: seq<string>): seq<(bool, Request)> {
    seq(|names|, i requires 0 <= i < |names| => (true, CreateCluster(names[i], "", "")))
  }

  /** Creating clusters under new names of up to 255 characters adds exactly these. */
  lemma {:induction false} CreatedClusters(t: Tables, names: seq<string>)
    requires Valid(t) && forall i, j | 0 <= i < j < |names| :: names[i] != names[j]
    requires forall i | 0 <= i < |names| :: |names[i]| <= 255 && !Listed(t, names[i])
    ensures var t2 := AfterAll(t, Creations(names));
            && Valid(t2) && |t2.clusters| == |t.clusters| + |names|
            && forall name :: Listed(t2, name) <==> Listed(t, name) || name in names
    decreases |names|
  {
    hide Valid, After, Answer, Stored;
    if names != [] {
      var name := names[0];
      var t1 := After(t, true, CreateCluster(name, "", ""));
      OneMoreCluster(t, name);
      assert Creations(names)[1..] == Creations(names[1..]);
      CreatedClusters(t1, names[1..]);
      assert names == [name] + names[1..];
    }
  }

  lemma OneMoreCluster(t: Tables, name: string)
    requires Valid(t) && |name| <= 255 && !Listed(t, name)
    ensures var t1 := After(t, true, CreateCluster(name, "", ""));
            && Valid(t1) && |t1.clusters| == |t.clusters| + 1
            && forall other :: Listed(t1, other) <==> Listed(t, other) || other == name
  {
    hide After, Answer;
    AfterKeepsValid(t, true, CreateCluster(name, "", ""));
    CreateClusterExact(t, true, name, "", "");
    var t1 := After(t, true, CreateCluster(name, "", ""));
    forall id | id in t.clusters ensures t.clusters[id].name != name {
      assert id in ClusterKeys(t);
    }
    assert t1.clusters == t.clusters[t.nextCluster := ClusterRow(name, None, "")];
    ListedAfter(t, t1, name);
  }

  lemma ListedAfter(t: Tables, t1: Tables, name: string)
    requires t.nextCluster !in t.clusters
    requires t1.clusters == t.clusters[t.nextCluster := ClusterRow(name, None, "")]
    ensures |t1.clusters| == |t.clusters| + 1
    ensures forall other :: Listed(t1, other) <==> Listed(t, other) || other == name
  {
    var keys, keys1 := ClusterKeys(t), ClusterKeys(t1);
    assert keys1 == keys[t.nextCluster := name];
    forall other ensures Listed(t1, other) <==> Listed(t, other) || other == name {
      if id :| id in keys && keys[id] == other {
        assert id in keys1 && keys1[id] == other;
      }
      if other == name {
        assert t.nextCluster in keys1;
      }
    }
  }

  /** From the empty catalogue to the client: clusters created under any distinct names of up to 255
      characters are what a walk through the listing returns, each once and in order. */
  lemma CreatedClustersAreListed(less: Order, names: seq<string>, pages: seq<seq<string>>)
    requires Collation(less) && forall i, j | 0 <= i < j < |names| :: names[i] != names[j]
    requires forall i | 0 <= i < |names| :: |names[i]| <= 255
    requires StaticWalk(less, ClusterKeys(AfterAll(EMPTY_TABLES, Creations(names))), pages) && Completed(pages)
    ensures |pages| == |names| / 10 + 1 && |Flat(pages)| == |names| && Increasing(less, Flat(pages))
    ensures forall name :: name in Flat(pages) <==> name in names
  {
    hide Collation, StaticWalk, Completed, Flat, Increasing, Listing, AfterAll;
    var t2 := AfterAll(EMPTY_TABLES, Creations(names));
    CreatedClusters(EMPTY_TABLES, names);
    ClusterWalkStatic(less, t2, pages);
    forall name ensures name in Flat(pages) <==> name in names {
      ListingLists(less, ClusterKeys(t2), name);
      assert !Listed(EMPTY_TABLES, name);
    }
  }

  /** `DeleteCluster` removes exactly that cluster and its nodes, and is an error when there is none. */
  lemma DeleteClusterExact(t: Tables, name: string)
    requires Valid(t)
    ensures Answer(t, true, DeleteCluster(name)) ==
              if exists id :: id in t.clusters && t.clusters[id].name == name then 401 else 500
    ensures var t2 := After(t, true, DeleteCluster(name));
            && (forall id :: id in t2.clusters <==> id in t.clusters && t.clusters[id].name != name)
            && (forall id | id in t2.clusters :: t2.clusters[id] == t.clusters[id])
            && (forall n :: n in t2.nodes <==> n in t.nodes && !InCluster(t, n, name))
            && (forall n | n in t2.nodes :: t2.nodes[n] == t.nodes[n])
            && NodeKeys(t2, name) == map[]
  {
    assert forall id :: Named(t, id, name) <==> id in t.clusters && t.clusters[id].name == name;
  }

  predicate Creates(req: Request, name: string) { req.CreateCluster? && Stored(req.name) == name }

  /** After it, and until the name is used for a new cluster, the name is unknown to every request. */
  lemma {:induction false} DeletedStaysGone(t: Tables, name: string, history: seq<(bool, Request)>)
    requires Valid(t) && ClusterID(t, name).None?
    requires forall i | 0 <= i < |history| :: !Creates(history[i].1, name)
    ensures var t2 := AfterAll(t, history);
            && ClusterID(t2, name).None? && NodeKeys(t2, name) == map[]
            && Answer(t2, true, DeleteCluster(name)) == INTERNAL_SERVER_ERROR
            && (forall nodeID, host, port :: Answer(t2, true, CreateNode(name, nodeID, host, port)) == NOT_FOUND)
            && (forall nodeID :: Answer(t2, true, DeleteNode(name, nodeID)) == NOT_FOUND)
    decreases |history|
  {
    if history != [] {
      var req := history[0].1;
      var t1 := After(t, history[0].0, req);
      AfterKeepsValid(t, history[0].0, req);
      assert !Creates(req, name);
      assert forall id :: Named(t1, id, name) ==> Named(t, id, name);
      DeletedStaysGone(t1, name, history[1..]);
    }
  }

  /** A cluster created under any name, also one used before, begins without nodes. */
  lemma NewClusterHasNoNodes(t: Tables, req: Request)
    requires Valid(t) && req.CreateCluster? && Succeeds(t, true, req)
    ensures NodeKeys(After(t, true, req), Stored(req.name)) == map[]
  {
    var t2 := After(t, true, req);
    forall n | n in t2.nodes ensures !InCluster(t2, n, Stored(req.name)) {
      assert !Named(t, t.nodes[n].clusterID, Stored(req.name));
    }
  }

  lemma TwoRequests(t: Tables, first: Request, second: Request)
    ensures var history, t1 := [(true, first), (true, second)], After(t, true, first);
            && AfterAll(t, history) == After(t1, true, second)
            && UnauthorizedCount(t, history) ==
                 (if Answer(t, true, first) == UNAUTHORIZED then 1 else 0)
                 + (if Answer(t1, true, second) == UNAUTHORIZED then 1 else 0)
  {
    hide After, Answer;
    var history, t1 := [(true, first), (true, second)], After(t, true, first);
    assert history[1..] == [(true, second)] && history[1..][1..] == [];
    assert AfterAll(t1, history[1..]) == AfterAll(After(t1, true, second), []);
    assert UnauthorizedCount(After(t1, true, second), []) == 0;
  }

  /** Creating a cluster and deleting it changes the rows twice, is answered "unauthorized" twice, and
      gives the rows back. */
  lemma DeleteUndoesCreate(t: Tables, req: Request)
    requires Valid(t) && req.CreateCluster? && Succeeds(t, true, req)
    ensures var history := [(true, req), (true, DeleteCluster(Stored(req.name)))];
            var t1 := After(t, true, req);
            var t2 := After(t1, true, DeleteCluster(Stored(req.name)));
            && !SameRows(t, t1) && !SameRows(t1, t2) && SameRows(t, t2)
            && t2 == AfterAll(t, history) && UnauthorizedCount(t, history) == 2
  {
    var name := Stored(req.name);
    var t1 := After(t, true, req);
    AfterKeepsValid(t, true, req);
    ChangesAreAnsweredUnauthorized(t, true, req);
    assert Named(t1, t.nextCluster, name);
    ChangesAreAnsweredUnauthorized(t1, true, DeleteCluster(name));
    DeleteClusterExact(t1, name);
    NewClusterHasNoNodes(t, req);
    forall n | n in t1.nodes ensures !InCluster(t1, n, name) {
      assert n !in NodeKeys(t1, name);
    }
    var t2 := After(t1, true, DeleteCluster(name));
    TwoRequests(t, req, DeleteCluster(name));
    assert t1.nodes == t.nodes;
    assert forall n :: n in t2.nodes <==> n in t.nodes;
    assert t2.nodes == t.nodes;
    assert t2.clusters == t.clusters by {
      assert forall id | id in t.clusters :: !Named(t, id, name);
    }
  }

  /** A created node is found in its cluster under its ID and its address as stored; deleting it takes
      every node of the cluster with that ID, and so gives the rows back exactly when the ID was not there
      before. An over-long ID deletes nothing. */
  lemma CreateThenDeleteNode(t: Tables, cluster: string, nodeID: string, host: string, port: int)
    requires Valid(t) && Succeeds(t, true, CreateNode(cluster, nodeID, host, port))
    ensures var t1 := After(t, true, CreateNode(cluster, nodeID, host, port));
            var t2 := After(t1, true, DeleteNode(cluster, Stored(nodeID)));
            && HasNodeID(t1, cluster, Stored(nodeID)) && HasHostPort(t1, cluster, Stored(host), port)
            && !SameRows(t1, t2) && !HasNodeID(t2, cluster, Stored(nodeID))
            && (SameRows(t, t2) <==> !HasNodeID(t, cluster, Stored(nodeID)))
            && (|nodeID| > VARCHAR ==> Answer(t1, true, DeleteNode(cluster, nodeID)) == NOT_FOUND)
  {
    hide Stored;
    var t1, key := After(t, true, CreateNode(cluster, nodeID, host, port)), Stored(nodeID);
    AfterKeepsValid(t, true, CreateNode(cluster, nodeID, host, port));
    NewNode(t, cluster, nodeID, host, port);
    assert t1.nodes[t.nextNode].nodeID == key;
    DeletedNodes(t1, cluster, key);
    DeleteNodeExact(t1, true, cluster, nodeID);
    LongIDsAreNotStored(t1, nodeID);
    var t2 := After(t1, true, DeleteNode(cluster, key));
    hide After;
    assert t.nextNode in t1.nodes && t.nextNode !in t2.nodes;
    if HasNodeID(t, cluster, key) {
      var n :| InCluster(t, n, cluster) && t.nodes[n].nodeID == key;
      assert n in t.nodes && InCluster(t1, n, cluster) && n !in t2.nodes;
    } else {
      assert forall n | n in t.nodes :: n in t2.nodes && t2.nodes[n] == t.nodes[n];
    }
  }

  lemma LongIDsAreNotStored(t: Tables, nodeID: string)
    requires Valid(t)
    ensures |nodeID| > VARCHAR ==> forall n | n in t.nodes :: t.nodes[n].nodeID != nodeID
  {
  }

  lemma DeletedNodes(t: Tables, cluster: string, key: string)
    requires Valid(t)
    ensures var t2 := After(t, true, DeleteNode(cluster, key));
            && t2.clusters == t.clusters && !HasNodeID(t2, cluster, key)
            && (forall n :: n in t2.nodes <==> n in t.nodes && !(InCluster(t, n, cluster) && t.nodes[n].nodeID == key))
            && forall n | n in t2.nodes :: t2.nodes[n] == t.nodes[n]
  {
    var t2 := After(t, true, DeleteNode(cluster, key));
    assert !HasNodeID(t, cluster, key) ==> t2 == t;
    if ClusterID(t, cluster).None? {
      assert forall n :: !InCluster(t, n, cluster);
    }
  }

  // ---------------------------------------------------------------- listings

  lemma ClusterKeysUnique(t: Tables)
    requires Valid(t)
    ensures Unique(ClusterKeys(t))
  {
  }

  /** A cluster with this name exists. */
  predicate Listed(t: Tables, name: string) { Lists(ClusterKeys(t), name) }

  /** The catalogue when each page is asked for, with any requests in between. */
  ghost predicate Served(states: seq<Tables>, histories: seq<seq<(bool, Request)>>) {
    && |states| == |histories| + 1
    && forall i | 0 <= i < |histories| :: states[i + 1] == AfterAll(states[i], histories[i])
  }

  lemma {:induction false} ServedIsValid(states: seq<Tables>, histories: seq<seq<(bool, Request)>>, i: nat)
    requires Served(states, histories) && Valid(states[0]) && i < |states|
    ensures Valid(states[i])
  {
    if i > 0 {
      ServedIsValid(states, histories, i - 1);
      AllRequestsKeepValid(states[i - 1], histories[i - 1]);
    }
  }

  function ClusterTables(states: seq<Tables>): seq<Keys> {
    seq(|states|, i requires 0 <= i < |states| => ClusterKeys(states[i]))
  }

  /** Paging through the clusters while other clients create and delete clusters and nodes: the names
      are strictly increasing, none comes twice, and a completed walk has every cluster that existed at
      each of its requests. */
  lemma ClusterWalk(less: Order, states: seq<Tables>, histories: seq<seq<(bool, Request)>>, pages: seq<seq<string>>)
    requires Collation(less) && Served(states, histories) && Valid(states[0])
    requires Walk(less, ClusterTables(states), pages)
    ensures Increasing(less, Flat(pages))
    ensures Completed(pages) ==>
              forall name | forall i | 0 <= i < |states| :: Listed(states[i], name) :: name in Flat(pages)
  {
    hide Collation, Valid, Walk, Unique, Lists, Increasing;
    var tables := ClusterTables(states);
    forall i | 0 <= i < |tables| ensures Unique(tables[i]) {
      ServedIsValid(states, histories, i);
      ClusterKeysUnique(states[i]);
    }
    WalkUnderChange(less, tables, pages);
    forall name | Completed(pages) && forall i | 0 <= i < |states| :: Listed(states[i], name)
      ensures name in Flat(pages)
    {
      assert forall i | 0 <= i < |states| :: Listed(states[i], name) ==> Lists(tables[i], name);
      assert PresentThroughout(tables, |tables|, name);
    }
  }

  /** On an unchanged catalogue of n clusters every walk ends within ⌊n/10⌋+1 pages, and a completed one
      has returned all clusters, each once and in order, in exactly that many. */
  lemma ClusterWalkStatic(less: Order, t: Tables, pages: seq<seq<string>>)
    requires Collation(less) && Valid(t) && StaticWalk(less, ClusterKeys(t), pages)
    ensures |pages| <= |t.clusters| / 10 + 1
    ensures Completed(pages) <==> |pages| == |t.clusters| / 10 + 1
    ensures Completed(pages) ==>
              && Flat(pages) == Listing(less, ClusterKeys(t)) && Increasing(less, Flat(pages))
              && |Flat(pages)| == |t.clusters|
  {
    hide Collation, Valid, StaticWalk, Completed, Flat, Increasing, Listing, Unique;
    ClusterKeysUnique(t);
    assert ClusterKeys(t).Keys == t.clusters.Keys;
    UniqueWalk(less, ClusterKeys(t), pages);
  }

  /** A node is refused as a duplicate exactly when the cluster named "" has one like it; so outside
      that cluster, and inside it when both its ID and its host are over-long, the same node can be
      created any number of times. */
  lemma DuplicateNodes(t: Tables, cluster: string, nodeID: string, host: string, port: int)
    requires Valid(t) && Succeeds(t, true, CreateNode(cluster, nodeID, host, port))
    ensures var req := CreateNode(cluster, nodeID, host, port);
            var t1 := After(t, true, req);
            var again := cluster != "" || (|nodeID| > VARCHAR && |host| > VARCHAR);
            && (Succeeds(t1, true, req) <==> again) && (!SameRows(t1, After(t1, true, req)) <==> again)
            && (!again ==> Answer(t1, true, req) == CONFLICT)
            && (again ==> !Unique(NodeKeys(After(t1, true, req), cluster)))
  {
    var req := CreateNode(cluster, nodeID, host, port);
    AfterKeepsValid(t, true, req);
    var t1 := After(t, true, req);
    ChangesAreAnsweredUnauthorized(t1, true, req);
    NewNode(t, cluster, nodeID, host, port);
    if cluster != "" || (|nodeID| > VARCHAR && |host| > VARCHAR) {
      NotGuarded(t, cluster, nodeID, host, port);
      var id, t2 := ClusterID(t, cluster).value, After(t1, true, req);
      assert ClusterID(t1, cluster) == Some(id) && Named(t2, id, cluster);
      var keys := NodeKeys(t2, cluster);
      assert InCluster(t2, t.nextNode, cluster) && InCluster(t2, t1.nextNode, cluster);
      assert keys[t.nextNode] == keys[t1.nextNode];
    }
  }

  /** What a new node adds to its cluster. */
  lemma NewNode(t: Tables, cluster: string, nodeID: string, host: string, port: int)
    requires Valid(t) && Succeeds(t, true, CreateNode(cluster, nodeID, host, port))
    ensures var t1 := After(t, true, CreateNode(cluster, nodeID, host, port));
            && InCluster(t1, t.nextNode, cluster)
            && (forall n, name ::
                  InCluster(t1, n, name) <==> InCluster(t, n, name) || (n == t.nextNode && name == cluster))
            && NodeKeys(t1, cluster) == NodeKeys(t, cluster)[t.nextNode := Stored(nodeID)]
            && ClusterID(t1, cluster) == ClusterID(t, cluster)
  {
    var id := ClusterID(t, cluster).value;
    var t1 := After(t, true, CreateNode(cluster, nodeID, host, port));
    assert Named(t, id, cluster) && Named(t1, id, cluster);
  }

  /** Neither guard finds the node just created. */
  lemma NotGuarded(t: Tables, cluster: string, nodeID: string, host: string, port: int)
    requires Valid(t) && Succeeds(t, true, CreateNode(cluster, nodeID, host, port))
    requires cluster != "" || (|nodeID| > VARCHAR && |host| > VARCHAR)
    ensures var req := CreateNode(cluster, nodeID, host, port);
            Succeeds(After(t, true, req), true, req)
  {
    var t1 := After(t, true, CreateNode(cluster, nodeID, host, port));
    NewNode(t, cluster, nodeID, host, port);
    forall n | InCluster(t1, n, "")
      ensures t1.nodes[n].nodeID != nodeID && !(t1.nodes[n].host == host && t1.nodes[n].port == port)
    {
      if n != t.nextNode {
        assert InCluster(t, n, "") && t1.nodes[n] == t.nodes[n];
        assert !HasNodeID(t, "", nodeID) && !HasHostPort(t, "", host, port);
      }
    }
  }

  function Repeated(req: Request, k: nat): seq<(bool, Request)> { seq(k, i => (true, req)) }

  /** The same node created k times is in its cluster k times more. */
  lemma {:induction false} CopiesOfNode(t: Tables, req: Request, k: nat)
    requires Valid(t) && req.CreateNode? && req.cluster != "" && Succeeds(t, true, req)
    ensures var before, after := NodeKeys(t, req.cluster), NodeKeys(AfterAll(t, Repeated(req, k)), req.cluster);
            && |RowsOf(after, Stored(req.nodeID))| == |RowsOf(before, Stored(req.nodeID))| + k
            && forall key | key != Stored(req.nodeID) :: Lists(after, key) ==> Lists(before, key)
    decreases k
  {
    hide Valid, Succeeds, After, Stored;
    if k > 0 {
      var t1, key := After(t, true, req), Stored(req.nodeID);
      assert Repeated(req, k)[1..] == Repeated(req, k - 1);
      AfterKeepsValid(t, true, req);
      NewNode(t, req.cluster, req.nodeID, req.host, req.port);
      NotGuarded(t, req.cluster, req.nodeID, req.host, req.port);
      CopiesOfNode(t1, req, k - 1);
      assert t.nextNode !in t.nodes by { NextNodeIsNew(t); }
      assert RowsOf(NodeKeys(t1, req.cluster), key) == RowsOf(NodeKeys(t, req.cluster), key) + {t.nextNode};
    }
  }

  lemma NextNodeIsNew(t: Tables)
    requires Valid(t)
    ensures t.nextNode !in t.nodes
  {
  }

  /** Once a node has been created so often that its ID is there more than ten times, no completed walk
      over the nodes of its cluster returns them all; and there is one, when no ID is empty. */
  lemma TwinsAreLost(less: Order, t: Tables, req: Request, k: nat)
    requires Collation(less) && Valid(t) && req.CreateNode? && req.cluster != "" && Succeeds(t, true, req)
    requires |RowsOf(NodeKeys(t, req.cluster), Stored(req.nodeID))| + k > 10
    ensures var keys := NodeKeys(AfterAll(t, Repeated(req, k)), req.cluster);
            && (forall pages | StaticWalk(less, keys, pages) && Completed(pages) :: Flat(pages) != Listing(less, keys))
            && (req.nodeID != "" && !Lists(NodeKeys(t, req.cluster), "") ==>
                  exists pages :: StaticWalk(less, keys, pages) && Completed(pages))
  {
    hide Collation, StaticWalk, Completed, Flat, Succeeds, Valid, Listing, RowsOf, NodeKeys, AfterAll, Lists, Walkable;
    var keys := NodeKeys(AfterAll(t, Repeated(req, k)), req.cluster);
    CopiesOfNode(t, req, k);
    TwinsSplit(less, keys, Stored(req.nodeID));
    forall pages | StaticWalk(less, keys, pages) && Completed(pages) ensures Flat(pages) != Listing(less, keys) {
      StaticWalkIff(less, keys, pages);
    }
    if req.nodeID != "" && !Lists(NodeKeys(t, req.cluster), "") {
      ListingLists(less, keys, "");
      StaticWalkEnds(less, keys);
    }
  }

  // ---------------------------------------------------------------- the store

  class Store {
    var clusters: map<int, ClusterRow>
    var nodes: map<int, NodeRow>
    var nextCluster: int
    var nextNode: int

    ghost function View(): Tables
      reads this
    {
      Tables(clusters, nodes, nextCluster, nextNode)
    }

    constructor ()
      ensures View() == EMPTY_TABLES && Valid(View())
    {
      clusters, nodes, nextCluster, nextNode := map[], map[], 1, 1;
    }

    /** `GetCluster`. */
    method FindCluster(name: string) returns (id: Option<int>)
      requires Valid(View())
      ensures id == ClusterID(View(), name)
    {
      var ids := clusters.Keys;
      while ids != {}
        invariant ids <= clusters.Keys
        invariant forall i | i in clusters && i !in ids :: clusters[i].name != name
        decreases ids
      {
        ghost var one := AnElement(ids);
        var i :| i in ids;
        if clusters[i].name == name {
          assert Named(View(), i, name);
          return Some(i);
        }
        ids := ids - {i};
      }
      assert forall i :: !Named(View(), i, name);
      id := None;
    }

    /** `GetNodeByHostPort` and `GetNodeByNodeID`: the node, if any, of the named cluster. */
    method FindNode(cluster: string, matches: NodeRow -> bool) returns (found: bool)
      requires Valid(View())
      ensures found <==> exists n :: InCluster(View(), n, cluster) && matches(nodes[n])
    {
      var id := FindCluster(cluster);
      if id.None? {
        return false;
      }
      var ids := nodes.Keys;
      while ids != {}
        invariant ids <= nodes.Keys
        invariant forall n | n in nodes && n !in ids :: !(nodes[n].clusterID == id.value && matches(nodes[n]))
        decreases ids
      {
        ghost var one := AnElement(ids);
        var n :| n in ids;
        if nodes[n].clusterID == id.value && matches(nodes[n]) {
          assert InCluster(View(), n, cluster);
          return true;
        }
        ids := ids - {n};
      }
      found := false;
    }

    // Each visitor writes last, so that one which fails has nothing to be rolled back.

    method VisitCreateCluster(open: bool, session: bool, req: Request) returns (o: Outcome)
      requires Valid(View()) && req.CreateCluster?
      modifies this
      ensures o == Visitor(old(View()), open, session, req)
      ensures View() == if o.Done? then After(old(View()), session, req) else old(View())
    {
      if !open || !session {
        return Failed(UNAUTHORIZED);
      }
      var id := FindCluster(Stored(req.name));
      if !FitsColumn(req.name) || id.Some? {
        return Failed(BAD_REQUEST);
      }
      var row := ClusterRow(Stored(req.name), None, "");
      clusters, nextCluster := clusters[nextCluster := row], nextCluster + 1;
      o := Done;
    }

    method VisitDeleteCluster(open: bool, session: bool, req: Request) returns (o: Outcome)
      requires Valid(View()) && req.DeleteCluster?
      modifies this
      ensures o == Visitor(old(View()), open, session, req)
      ensures View() == if o.Done? then After(old(View()), session, req) else old(View())
    {
      if !open || !session {
        return Failed(UNAUTHORIZED);
      }
      var id := FindCluster(req.name);
      if id.None? {
        return Failed(INTERNAL_SERVER_ERROR);
      }
      clusters := clusters - {id.value};
      nodes := map n | n in nodes && nodes[n].clusterID != id.value :: nodes[n];
      o := Done;
    }

    method VisitCreateNode(open: bool, session: bool, req: Request) returns (o: Outcome)
      requires Valid(View()) && req.CreateNode?
      modifies this
      ensures o == Visitor(old(View()), open, session, req)
      ensures View() == if o.Done? then After(old(View()), session, req) else old(View())
    {
      if !open || !session {
        return Failed(UNAUTHORIZED);
      }
      var id := FindCluster(req.cluster);
      if id.None? {
        return Failed(NOT_FOUND);
      }
      var sameHostPort := FindNode("", (n: NodeRow) => n.host == req.host && n.port == req.port);
      if sameHostPort {
        return Failed(CONFLICT);
      }
      var sameNodeID := FindNode("", (n: NodeRow) => n.nodeID == req.nodeID);
      if sameNodeID {
        return Failed(CONFLICT);
      }
      if !FitsColumn(req.nodeID) || !FitsColumn(req.host) {
        return Failed(BAD_REQUEST);
      }
      var row := NodeRow(id.value, Stored(req.nodeID), Stored(req.host), req.port, false, false);
      nodes, nextNode := nodes[nextNode := row], nextNode + 1;
      o := Done;
    }

    method VisitDeleteNode(open: bool, session: bool, req: Request) returns (o: Outcome)
      requires Valid(View()) && req.DeleteNode?
      modifies this
      ensures o == Visitor(old(View()), open, session, req)
      ensures View() == if o.Done? then After(old(View()), session, req) else old(View())
    {
      if !open || !session {
        return Failed(UNAUTHORIZED);
      }
      var id := FindCluster(req.cluster);
      if id.None? {
        return Failed(NOT_FOUND);
      }
      var found := FindNode(req.cluster, (n: NodeRow) => n.nodeID == req.nodeID);
      if !found {
        return Failed(NOT_FOUND);
      }
      ghost var t := View();
      assert forall n | n in nodes :: InCluster(t, n, req.cluster) <==> nodes[n].clusterID == id.value;
      nodes := map n | n in nodes && !(nodes[n].clusterID == id.value && nodes[n].nodeID == req.nodeID) :: nodes[n];
      assert View().nodes == After(t, session, req).nodes;
      o := Done;
    }

    method Visit(open: bool, session: bool, req: Request) returns (o: Outcome)
      requires Valid(View())
      modifies this
      ensures Valid(View())
      ensures o == Visitor(old(View()), open, session, req)
      ensures View() == if o.Done? then After(old(View()), session, req) else old(View())
    {
      AfterKeepsValid(View(), session, req);
      match req
      case CreateCluster(_, _, _) => o := VisitCreateCluster(open, session, req);
      case DeleteCluster(_) => o := VisitDeleteCluster(open, session, req);
      case CreateNode(_, _, _, _) => o := VisitCreateNode(open, session, req);
      case DeleteNode(_, _) => o := VisitDeleteNode(open, session, req);
    }

    /** A handler over `VisitTx`: the visitor in a new transaction, rolled back on an error and else
        committed, and then the visitor once more with the transaction finished. */
    method Handle(session: bool, req: Request) returns (status: int)
      requires Valid(View())
      modifies this
      ensures Valid(View())
      ensures status == Answer(old(View()), session, req)
      ensures View() == After(old(View()), session, req)
    {
      var o := Visit(true, session, req);
      if o.Failed? {
        return o.status;
      }
      o := Visit(false, session, req);
      if o.Failed? {
        return o.status;
      }
      status := SuccessStatus(req);
    }

    /** `GET /api/clusters`: one page of names behind the cursor. */
    method HandleGetClusters(less: Order, session: bool, cursor: string)
        returns (status: int, response: seq<ClusterRow>)
      requires Valid(View()) && Collation(less)
      ensures status == if session then 200 else 401
      ensures session ==> exists rows :: IsPage(less, ClusterKeys(View()), cursor, rows) && |response| == |rows|
                            && forall i | 0 <= i < |rows| :: response[i] == clusters[rows[i]]
      ensures |response| == if session then |Page(less, ClusterKeys(View()), cursor)| else 0
      ensures forall i | 0 <= i < |response| ::
                response[i].name == Page(less, ClusterKeys(View()), cursor)[i]
                && exists id :: id in clusters && clusters[id] == response[i]
    {
      response := [];
      if !session {
        return UNAUTHORIZED, [];
      }
      ghost var t := View();
      var keys := map id | id in clusters :: clusters[id].name;
      assert keys == ClusterKeys(t);
      var rows := PageIDs(less, keys, cursor);
      PageOfIDs(less, keys, cursor);
      PageIsPage(less, keys, cursor);
      for k := 0 to |rows|
        invariant |response| == k
        invariant forall i | 0 <= i < k :: rows[i] in clusters && response[i] == clusters[rows[i]]
      {
        assert rows[k] in keys;
        response := response + [clusters[rows[k]]];
      }
      forall i | 0 <= i < |response|
        ensures response[i].name == Page(less, ClusterKeys(t), cursor)[i]
        ensures exists id :: id in clusters && clusters[id] == response[i]
      {
        var id := rows[i];
        assert id in clusters && clusters[id] == response[i];
      }
      status := OK;
    }

    /** `GET /api/nodes`: one page of the named cluster's nodes behind the cursor. */
    method HandleGetNodes(less: Order, session: bool, cluster: string, cursor: string)
        returns (status: int, response: seq<NodeRow>)
      requires Valid(View()) && Collation(less)
      ensures status == if !session then 401
                        else if forall id | id in clusters :: clusters[id].name != cluster then 404 else 200
      ensures status == 200 ==>
                exists rows :: IsPage(less, NodeKeys(View(), cluster), cursor, rows) && |response| == |rows|
                  && forall i | 0 <= i < |rows| :: response[i] == nodes[rows[i]]
      ensures |response| == if status == 200 then |Page(less, NodeKeys(View(), cluster), cursor)| else 0
      ensures forall i | 0 <= i < |response| ::
                response[i].nodeID == Page(less, NodeKeys(View(), cluster), cursor)[i]
                && exists n :: InCluster(View(), n, cluster) && nodes[n] == response[i]
    {
      response := [];
      if !session {
        return UNAUTHORIZED, [];
      }
      var id := FindCluster(cluster);
      assert forall i :: Named(View(), i, cluster) <==> i in clusters && clusters[i].name == cluster;
      if id.None? {
        return NOT_FOUND, [];
      }
      ghost var t := View();
      var keys := map n | n in nodes && nodes[n].clusterID == id.value :: nodes[n].nodeID;
      assert keys == NodeKeys(t, cluster);
      var rows := PageIDs(less, keys, cursor);
      PageOfIDs(less, keys, cursor);
      PageIsPage(less, keys, cursor);
      for k := 0 to |rows|
        invariant |response| == k
        invariant forall i | 0 <= i < k :: rows[i] in keys && response[i] == nodes[rows[i]]
      {
        assert rows[k] in keys;
        response := response + [nodes[rows[k]]];
      }
      assert forall i | 0 <= i < |response| :: InCluster(t, rows[i], cluster);
      status := OK;
    }
  }
}
