/**
 * `SessionConfigBuilder` of src/session.rs: five optional settings, four of which `build` requires
 * (checked in the order host, port, SenderCompID, TargetCompID) and one, the heartbeat interval, that
 * defaults to 30 seconds. The builder is consumed and returned by every setter, so it is a value here.
 */
module Session {
  import opened Wrappers
  import opened Bytes

  /** The errors of src/error.rs; `build` only ever returns `InvalidConfig`. */
  datatype FixgError =
    | InvalidConfig(message: string)
    | Gateway(message: string)
    | Client(message: string)
    | ChannelClosed

  datatype SessionConfig = SessionConfig(
    host: string,
    port: U16,
    senderCompId: string,
    targetCompId: string,
    heartbeatIntervalSecs: U32)

  datatype SessionConfigBuilder = SessionConfigBuilder(
    host: Option<string>,
    port: Option<U16>,
    senderCompId: Option<string>,
    targetCompId: Option<string>,
    heartbeatIntervalSecs: Option<U32>)

  /** The heartbeat interval, in seconds, when none is set. */
  const DEFAULT_HEARTBEAT_SECS: U32 := 30

  /** `SessionConfig::builder()`, the derived `Default`: nothing set. */
  function Builder(): (b: SessionConfigBuilder)
    ensures b.host.None? && b.port.None? && b.senderCompId.None? && b.targetCompId.None?
    ensures b.heartbeatIntervalSecs.None?
  {
    SessionConfigBuilder(None, None, None, None, None)
  }

  function WithHost(b: SessionConfigBuilder, host: string): (r: SessionConfigBuilder)
    ensures r.host == Some(host)
    ensures r == b.(host := r.host)
  {
    b.(host := Some(host))
  }

  function WithPort(b: SessionConfigBuilder, port: U16): (r: SessionConfigBuilder)
    ensures r.port == Some(port)
    ensures r == b.(port := r.port)
  {
    b.(port := Some(port))
  }

  function WithSenderCompId(b: SessionConfigBuilder, v: string): (r: SessionConfigBuilder)
    ensures r.senderCompId == Some(v)
    ensures r == b.(senderCompId := r.senderCompId)
  {
    b.(senderCompId := Some(v))
  }

  function WithTargetCompId(b: SessionConfigBuilder, v: string): (r: SessionConfigBuilder)
    ensures r.targetCompId == Some(v)
    ensures r == b.(targetCompId := r.targetCompId)
  {
    b.(targetCompId := Some(v))
  }

  function WithHeartbeatIntervalSecs(b: SessionConfigBuilder, v: U32): (r: SessionConfigBuilder)
    ensures r.heartbeatIntervalSecs == Some(v)
    ensures r == b.(heartbeatIntervalSecs := r.heartbeatIntervalSecs)
  {
    b.(heartbeatIntervalSecs := Some(v))
  }

  const HOST_MISSING: string := "host missing"
  const PORT_MISSING: string := "port missing"
  const SENDER_MISSING: string := "sender_comp_id missing"
  const TARGET_MISSING: string := "target_comp_id missing"

  /** `build`: the first unset required setting, in the order host, port, SenderCompID, TargetCompID,
      names the error; otherwise the configuration holds exactly the values set, with the heartbeat
      interval defaulting to 30. */
  function Build(b: SessionConfigBuilder): (r: Result<SessionConfig, FixgError>)
    ensures r.Ok? <==> b.host.Some? && b.port.Some? && b.senderCompId.Some? && b.targetCompId.Some?
    ensures b.host.None? ==> r == Err(InvalidConfig(HOST_MISSING))
    ensures b.host.Some? && b.port.None? ==> r == Err(InvalidConfig(PORT_MISSING))
    ensures b.host.Some? && b.port.Some? && b.senderCompId.None? ==> r == Err(InvalidConfig(SENDER_MISSING))
    ensures b.host.Some? && b.port.Some? && b.senderCompId.Some? && b.targetCompId.None? ==>
      r == Err(InvalidConfig(TARGET_MISSING))
    ensures r.Ok? ==>
      && Some(r.value.host) == b.host
      && Some(r.value.port) == b.port
      && Some(r.value.senderCompId) == b.senderCompId
      && Some(r.value.targetCompId) == b.targetCompId
      && r.value.heartbeatIntervalSecs == (if b.heartbeatIntervalSecs.Some? then b.heartbeatIntervalSecs.value else DEFAULT_HEARTBEAT_SECS)
  {
    match b.host
    case None => Err(InvalidConfig(HOST_MISSING))
    case Some(host) =>
      match b.port
      case None => Err(InvalidConfig(PORT_MISSING))
      case Some(port) =>
        match b.senderCompId
        case None => Err(InvalidConfig(SENDER_MISSING))
        case Some(sender) =>
          match b.targetCompId
          case None => Err(InvalidConfig(TARGET_MISSING))
          case Some(target) =>
            var heartbeat := match b.heartbeatIntervalSecs case Some(v) => v case None => DEFAULT_HEARTBEAT_SECS;
            Ok(SessionConfig(host, port, sender, target, heartbeat))
  }

  /** The four required setters, in any order after a fresh builder, give a configuration with those
      values and the 30-second heartbeat. */
  lemma BuildRequiredOnly(host: string, port: U16, sender: string, target: string)
    ensures Build(WithTargetCompId(WithSenderCompId(WithPort(WithHost(Builder(), host), port), sender), target))
      == Ok(SessionConfig(host, port, sender, target, DEFAULT_HEARTBEAT_SECS))
    ensures Build(WithHost(WithPort(WithSenderCompId(WithTargetCompId(Builder(), target), sender), port), host))
      == Ok(SessionConfig(host, port, sender, target, DEFAULT_HEARTBEAT_SECS))
  {
  }

  /** A later call of a setter overrides an earlier one. */
  lemma LaterSetterWins(b: SessionConfigBuilder, h1: string, h2: string, p1: U16, p2: U16,
                        s1: string, s2: string, t1: string, t2: string, v1: U32, v2: U32)
    ensures WithHost(WithHost(b, h1), h2) == WithHost(b, h2)
    ensures WithPort(WithPort(b, p1), p2) == WithPort(b, p2)
    ensures WithSenderCompId(WithSenderCompId(b, s1), s2) == WithSenderCompId(b, s2)
    ensures WithTargetCompId(WithTargetCompId(b, t1), t2) == WithTargetCompId(b, t2)
    ensures WithHeartbeatIntervalSecs(WithHeartbeatIntervalSecs(b, v1), v2) == WithHeartbeatIntervalSecs(b, v2)
  {
  }

  /** Setters of different settings commute: each touches only its own. All ten pairs. */
  lemma SettersCommute(b: SessionConfigBuilder, host: string, port: U16, sender: string, target: string, secs: U32)
    ensures WithHost(WithPort(b, port), host) == WithPort(WithHost(b, host), port)
    ensures WithHost(WithSenderCompId(b, sender), host) == WithSenderCompId(WithHost(b, host), sender)
    ensures WithHost(WithTargetCompId(b, target), host) == WithTargetCompId(WithHost(b, host), target)
    ensures WithHost(WithHeartbeatIntervalSecs(b, secs), host) == WithHeartbeatIntervalSecs(WithHost(b, host), secs)
    ensures WithPort(WithSenderCompId(b, sender), port) == WithSenderCompId(WithPort(b, port), sender)
    ensures WithPort(WithTargetCompId(b, target), port) == WithTargetCompId(WithPort(b, port), target)
    ensures WithPort(WithHeartbeatIntervalSecs(b, secs), port) == WithHeartbeatIntervalSecs(WithPort(b, port), secs)
    ensures WithSenderCompId(WithTargetCompId(b, target), sender) == WithTargetCompId(WithSenderCompId(b, sender), target)
    ensures WithSenderCompId(WithHeartbeatIntervalSecs(b, secs), sender)
      == WithHeartbeatIntervalSecs(WithSenderCompId(b, sender), secs)
    ensures WithTargetCompId(WithHeartbeatIntervalSecs(b, secs), target)
      == WithHeartbeatIntervalSecs(WithTargetCompId(b, target), secs)
  {
  }
}
