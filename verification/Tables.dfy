/** The rows that host deletion and agent registration work on. */
module Tables {
  import opened Options

  /** A host row; `agentId` is "" while no agent has registered (NULL reads as ""). */
  datatype Host = Host(ip: string, agentId: string, tenant: int)

  /** An agent's credential row, keyed by its agent_id. Old rows may lack the host reference. */
  datatype Agent = Agent(hostId: Option<int>, ip: string)

  datatype TaskStatus =
    | TaskPending | TaskRunning
    | TaskSuccess | TaskFailed | TaskRolledBack | TaskSkipped | TaskTimeout

  datatype CommandStatus =
    | CmdPending | CmdDispatched | CmdAccepted | CmdRunning
    | CmdSuccess | CmdFailed | CmdRolledBack | CmdTimeout | CmdExpired | CmdCanceled

  datatype TaskHost = TaskHost(hostId: int, status: TaskStatus)

  datatype Command = Command(hostId: Option<int>, taskHostId: Option<int>, status: CommandStatus)

  datatype Database = Database(
    hosts: map<int, Host>,
    agents: map<string, Agent>,
    taskHosts: map<int, TaskHost>,
    commands: map<int, Command>)

  /** The tenants a request may see. */
  datatype Scope = Scope(tenant: int, cross: bool) {
    predicate Allows(tenantOfRow: int) { cross || tenantOfRow == tenant }
  }

  predicate Visible(db: Database, sc: Scope, id: int) {
    id in db.hosts && sc.Allows(db.hosts[id].tenant)
  }

  predicate TaskActive(s: TaskStatus) { s.TaskPending? || s.TaskRunning? }

  predicate CommandActive(s: CommandStatus) { s.CmdPending? || s.CmdDispatched? || s.CmdAccepted? || s.CmdRunning? }

  function ActiveTasks(db: Database, id: int): set<int> {
    set t | t in db.taskHosts && db.taskHosts[t].hostId == id && TaskActive(db.taskHosts[t].status)
  }

  function ActiveCommands(db: Database, id: int): set<int> {
    set c | c in db.commands && db.commands[c].hostId == Some(id) && CommandActive(db.commands[c].status)
  }

  /** The host still has work that is not finished. */
  predicate Busy(db: Database, id: int) {
    |ActiveTasks(db, id)| > 0 || |ActiveCommands(db, id)| > 0
  }
}
