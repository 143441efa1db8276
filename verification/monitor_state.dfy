/** The state of one file-system monitor, after the `UnisonFSMonitor` record.
    Each `sync.Map` becomes a Dafny `map` (or a `set` where only the keys
    matter), the output stream becomes the sequence of lines written so far,
    and the nested read loop of a START command becomes a mode. */
module MonitorState {
  import opened StringSet

  /** Which loop reads the next command: the main loop of `Run`, or the loop
      of `startReplicaMonitor` collecting DIR/LINK lines for a replica. */
  datatype Mode = Normal | Collecting(replica: string)

  datatype Monitor = Monitor(
    debugEnabled: bool,
    /** The version Unison announced, kept as the string it sent. */
    protocolVersion: string,
    shuttingDown: bool,
    mode: Mode,
    /** `replicaRoot`: the root directory of each started replica. */
    roots: map<string, string>,
    /** `replicaPaths`: the sub-paths registered for each started replica. */
    paths: map<string, Set>,
    /** Keys of `replicaEventStream`: the replicas being watched, each with a
        running event handler. */
    active: set<string>,
    /** Keys of `replicaEndMonitoringChannel`. */
    ends: set<string>,
    /** `replicaWaiting`. */
    waiting: Set,
    /** `replicaReportedChanges`. */
    reported: Set,
    /** `replicaChanges`: the pending changed paths of each replica. */
    changes: map<string, Set>,
    /** Every line written to standard output, each with its newline. */
    out: seq<string>)

  /** The monitor as `New` builds it, before the handshake. */
  const Initial := Monitor(false, "", false, Normal, map[], map[], {}, {}, [], [], map[], [])

  /** The changed paths pending for replica `r`; none when it has no entry. */
  function Pending(m: Monitor, r: string): set<string> {
    if r in m.changes then Elements(m.changes[r]) else {}
  }

  /** What the commands and event handlers keep true between steps. */
  predicate Inv(m: Monitor) {
    && m.roots.Keys == m.ends
    && m.paths.Keys == m.ends
    && m.active <= m.ends
    && m.changes.Keys <= m.active
    && (forall r | r in m.changes :: Size(m.changes[r]) > 0)
    && Elements(m.waiting) <= m.active
    && Elements(m.reported) <= m.active
    && (m.mode.Collecting? ==> m.mode.replica in m.active)
  }

  lemma InitialInv()
    ensures Inv(Initial)
    ensures !Initial.shuttingDown && Initial.mode == Normal && Initial.out == []
  {
  }
}
