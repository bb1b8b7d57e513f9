/**
 * The session-level messages generated by build.rs: `AdminMessage` with its reading from a
 * `FixMessage` (`try_from`), its writing into one (`into_fix`) and its type (`msg_type`), and the
 * Logon, TestRequest and Logout builders. The generated code is modelled, not its token generation.
 */
module Admin {
  import opened Wrappers
  import opened Bytes
  import opened Protocol
  import Decimal

  datatype AdminMessage =
    | Logon(heartBtIntSecs: Option<U32>, senderCompId: Option<Text>, targetCompId: Option<Text>,
            encryptMethod: Option<U32>, resetSeqNumFlag: Option<bool>)
    | Heartbeat(testReqId: Option<Text>)
    | TestRequest(requestId: Text)
    | Logout(text: Option<Text>, sessionStatus: Option<U32>)
    | ResendRequest(beginSeqNo: U32, endSeqNo: U32)
    | SequenceReset(gapFillFlag: Option<bool>, newSeqNo: U32)

  /** One variant per error message of `try_from`. */
  datatype AdminError =
    | MissingTestReqId        // "TestRequest missing required TestReqID(112)"
    | MissingBeginSeqNo       // "ResendRequest missing required BeginSeqNo(7)"
    | InvalidBeginSeqNo       // "Invalid BeginSeqNo"
    | MissingEndSeqNo         // "ResendRequest missing required EndSeqNo(16)"
    | InvalidEndSeqNo         // "Invalid EndSeqNo"
    | MissingNewSeqNo         // "SequenceReset missing required NewSeqNo(36)"
    | InvalidNewSeqNo         // "Invalid NewSeqNo"
    | UnknownMessageType      // "Unknown message type"

  /** `fields.get(&tag).cloned()`. */
  function Get(fields: map<U32, Text>, tag: U32): (r: Option<Text>)
    ensures r.Some? <==> tag in fields
    ensures r.Some? ==> r.value == fields[tag]
  {
    if tag in fields then Some(fields[tag]) else None
  }

  /** `fields.get(&tag).and_then(|s| s.parse::<u32>().ok())`: a missing or malformed value is `None`. */
  function OptionalU32(fields: map<U32, Text>, tag: U32): (r: Option<U32>)
    ensures r.Some? <==> tag in fields && Decimal.ParseUnsigned(fields[tag], U32_MAX).Some?
    ensures r.Some? ==> Decimal.ParseUnsigned(fields[tag], U32_MAX) == Some(r.value)
  {
    if tag in fields then
      match Decimal.ParseUnsigned(fields[tag], U32_MAX)
      case None => None
      case Some(v) => Some(v)
    else None
  }

  /** `fields.get(&tag).and_then(|s| s.parse::<bool>().ok())`: only "true" and "false" are read. */
  function OptionalBool(fields: map<U32, Text>, tag: U32): (r: Option<bool>)
    ensures r.Some? <==> tag in fields && (fields[tag] == Decimal.TRUE_TEXT || fields[tag] == Decimal.FALSE_TEXT)
    ensures r == Some(true) <==> tag in fields && fields[tag] == Decimal.TRUE_TEXT
  {
    if tag in fields then Decimal.ParseBool(fields[tag]) else None
  }

  /** A required numeric field: missing and malformed are two different errors. */
  function RequiredU32(fields: map<U32, Text>, tag: U32, missing: AdminError, invalid: AdminError): (r: Result<U32, AdminError>)
    ensures tag !in fields <==> r == Err(missing)
    ensures tag in fields && Decimal.ParseUnsigned(fields[tag], U32_MAX).None? <==> r == Err(invalid) && missing != invalid
    ensures r.Ok? ==> tag in fields && Decimal.ParseUnsigned(fields[tag], U32_MAX) == Some(r.value)
    requires missing != invalid
  {
    if tag !in fields then Err(missing)
    else
      match Decimal.ParseUnsigned(fields[tag], U32_MAX)
      case None => Err(invalid)
      case Some(v) => Ok(v)
  }

  /** `AdminMessage::try_from(&FixMessage)`. */
  function TryFrom(msg: FixMessage): (r: Result<AdminMessage, AdminError>)
    ensures msg.msgType.Unknown? <==> r == Err(UnknownMessageType)
    ensures r.Ok? ==> MsgType(r.value) == msg.msgType
    ensures msg.msgType == FixMsgType.TestRequest ==> (r.Err? <==> TAG_TEST_REQ_ID !in msg.fields)
    ensures msg.msgType == FixMsgType.ResendRequest ==>
      (r.Err? <==> !(TAG_BEGIN_SEQ_NO in msg.fields && Decimal.ParseUnsigned(msg.fields[TAG_BEGIN_SEQ_NO], U32_MAX).Some? &&
                     TAG_END_SEQ_NO in msg.fields && Decimal.ParseUnsigned(msg.fields[TAG_END_SEQ_NO], U32_MAX).Some?))
    ensures msg.msgType == FixMsgType.SequenceReset ==>
      (r.Err? <==> !(TAG_NEW_SEQ_NO in msg.fields && Decimal.ParseUnsigned(msg.fields[TAG_NEW_SEQ_NO], U32_MAX).Some?))
    ensures msg.msgType in {FixMsgType.Logon, FixMsgType.Heartbeat, FixMsgType.Logout} ==> r.Ok?
  {
    var f := msg.fields;
    match msg.msgType
    case Logon =>
      Ok(AdminMessage.Logon(OptionalU32(f, TAG_HEART_BT_INT), Get(f, TAG_SENDER_COMP_ID), Get(f, TAG_TARGET_COMP_ID),
               OptionalU32(f, TAG_ENCRYPT_METHOD), OptionalBool(f, TAG_RESET_SEQ_NUM_FLAG)))
    case Heartbeat => Ok(AdminMessage.Heartbeat(Get(f, TAG_TEST_REQ_ID)))
    case TestRequest =>
      if TAG_TEST_REQ_ID !in f then Err(MissingTestReqId) else Ok(AdminMessage.TestRequest(f[TAG_TEST_REQ_ID]))
    case Logout => Ok(AdminMessage.Logout(Get(f, TAG_TEXT), OptionalU32(f, TAG_SESSION_STATUS)))
    case ResendRequest =>
      (match RequiredU32(f, TAG_BEGIN_SEQ_NO, MissingBeginSeqNo, InvalidBeginSeqNo)
       case Err(e) => Err(e)
       case Ok(begin) =>
         match RequiredU32(f, TAG_END_SEQ_NO, MissingEndSeqNo, InvalidEndSeqNo)
         case Err(e) => Err(e)
         case Ok(end) => Ok(AdminMessage.ResendRequest(begin, end)))
    case SequenceReset =>
      var gapFill := OptionalBool(f, TAG_GAP_FILL_FLAG);
      (match RequiredU32(f, TAG_NEW_SEQ_NO, MissingNewSeqNo, InvalidNewSeqNo)
       case Err(e) => Err(e)
       case Ok(newSeqNo) => Ok(AdminMessage.SequenceReset(gapFill, newSeqNo)))
    case Unknown(_) => Err(UnknownMessageType)
  }

  /** `msg_type`. */
  function MsgType(m: AdminMessage): (t: FixMsgType)
    ensures !t.Unknown?
  {
    match m
    case Logon(_, _, _, _, _) => Protocol.Logon
    case Heartbeat(_) => Protocol.Heartbeat
    case TestRequest(_) => Protocol.TestRequest
    case Logout(_, _) => Protocol.Logout
    case ResendRequest(_, _) => Protocol.ResendRequest
    case SequenceReset(_, _) => Protocol.SequenceReset
  }

  /** How `into_fix` writes a flag: "Y" or "N". */
  function FlagText(b: bool): (s: Text)
    ensures s == FLAG_YES || s == FLAG_NO
  {
    if b then FLAG_YES else FLAG_NO
  }

  /** `fields.insert(tag, value)` when there is a value. */
  function InsertSome(fields: map<U32, Text>, tag: U32, value: Option<Text>): map<U32, Text>
  {
    if value.Some? then fields[tag := value.value] else fields
  }

  function DigitsOf(v: Option<U32>): Option<Text>
  {
    if v.Some? then Some(Decimal.Digits(v.value)) else None
  }

  function FlagOf(v: Option<bool>): Option<Text>
  {
    if v.Some? then Some(FlagText(v.value)) else None
  }

  /** The fields of the variant, before the two header fields are added. */
  function VariantFields(m: AdminMessage): map<U32, Text>
  {
    match m
    case Logon(hb, _, _, em, reset) =>
      InsertSome(InsertSome(InsertSome(map[], TAG_HEART_BT_INT, DigitsOf(hb)), TAG_ENCRYPT_METHOD, DigitsOf(em)),
                 TAG_RESET_SEQ_NUM_FLAG, FlagOf(reset))
    case Heartbeat(id) => InsertSome(map[], TAG_TEST_REQ_ID, id)
    case TestRequest(id) => map[TAG_TEST_REQ_ID := id]
    case Logout(text, status) => InsertSome(InsertSome(map[], TAG_TEXT, text), TAG_SESSION_STATUS, DigitsOf(status))
    case ResendRequest(begin, end) => map[TAG_BEGIN_SEQ_NO := Decimal.Digits(begin), TAG_END_SEQ_NO := Decimal.Digits(end)]
    case SequenceReset(gapFill, newSeqNo) =>
      InsertSome(map[], TAG_GAP_FILL_FLAG, FlagOf(gapFill))[TAG_NEW_SEQ_NO := Decimal.Digits(newSeqNo)]
  }

  /** `into_fix`: a fresh message of the variant's type holding the variant's fields, then
      SenderCompID (49) and TargetCompID (56) from the arguments. A Logon's own comp IDs are not
      written. */
  function IntoFix(m: AdminMessage, senderCompId: Text, targetCompId: Text): (msg: FixMessage)
    ensures msg.beginString == BEGIN_STRING && msg.bodyLength == 0
    ensures msg.msgType == MsgType(m)
    ensures TAG_SENDER_COMP_ID in msg.fields && msg.fields[TAG_SENDER_COMP_ID] == senderCompId
    ensures TAG_TARGET_COMP_ID in msg.fields && msg.fields[TAG_TARGET_COMP_ID] == targetCompId
  {
    var base := NewMessage(MsgType(m));
    base.(fields := VariantFields(m)[TAG_SENDER_COMP_ID := senderCompId][TAG_TARGET_COMP_ID := targetCompId])
  }

  /** `{tag}` when the field is written, `{}` otherwise. */
  function TagIf(written: bool, tag: U32): set<U32>
  {
    if written then {tag} else {}
  }

  /** The variant's own tags: one per field that is set, the required ones always. */
  function OwnTags(m: AdminMessage): set<U32>
  {
    match m
    case Logon(hb, _, _, em, reset) =>
      TagIf(hb.Some?, TAG_HEART_BT_INT) + TagIf(em.Some?, TAG_ENCRYPT_METHOD) + TagIf(reset.Some?, TAG_RESET_SEQ_NUM_FLAG)
    case Heartbeat(id) => TagIf(id.Some?, TAG_TEST_REQ_ID)
    case TestRequest(_) => {TAG_TEST_REQ_ID}
    case Logout(text, status) => TagIf(text.Some?, TAG_TEXT) + TagIf(status.Some?, TAG_SESSION_STATUS)
    case ResendRequest(_, _) => {TAG_BEGIN_SEQ_NO, TAG_END_SEQ_NO}
    case SequenceReset(gapFill, _) => TagIf(gapFill.Some?, TAG_GAP_FILL_FLAG) + {TAG_NEW_SEQ_NO}
  }

  /** The tags `into_fix` writes: exactly the variant's own tags, and 49 and 56. */
  lemma IntoFixTags(m: AdminMessage, s: Text, t: Text)
    ensures IntoFix(m, s, t).fields.Keys == OwnTags(m) + {TAG_SENDER_COMP_ID, TAG_TARGET_COMP_ID}
  {
    assert VariantFields(m).Keys == OwnTags(m);
  }

  /** Reading back what `into_fix` wrote gives the message back for ResendRequest, TestRequest,
      Heartbeat and Logout. */
  lemma TryFromIntoFix(m: AdminMessage, s: Text, t: Text)
    requires m.ResendRequest? || m.TestRequest? || m.Heartbeat? || m.Logout?
    ensures TryFrom(IntoFix(m, s, t)) == Ok(m)
  {
    match m
    case ResendRequest(begin, end) => TryFromIntoFixResendRequest(begin, end, s, t);
    case TestRequest(_) =>
    case Heartbeat(_) =>
    case Logout(text, status) => TryFromIntoFixLogout(text, status, s, t);
  }

  lemma TryFromIntoFixResendRequest(begin: U32, end: U32, s: Text, t: Text)
    ensures TryFrom(IntoFix(AdminMessage.ResendRequest(begin, end), s, t)) == Ok(AdminMessage.ResendRequest(begin, end))
  {
    var fields := IntoFix(AdminMessage.ResendRequest(begin, end), s, t).fields;
    Decimal.ParseDigits(begin, U32_MAX);
    Decimal.ParseDigits(end, U32_MAX);
    assert RequiredU32(fields, TAG_BEGIN_SEQ_NO, MissingBeginSeqNo, InvalidBeginSeqNo) == Ok(begin);
    assert RequiredU32(fields, TAG_END_SEQ_NO, MissingEndSeqNo, InvalidEndSeqNo) == Ok(end);
  }

  lemma TryFromIntoFixLogout(text: Option<Text>, status: Option<U32>, s: Text, t: Text)
    ensures TryFrom(IntoFix(AdminMessage.Logout(text, status), s, t)) == Ok(AdminMessage.Logout(text, status))
  {
    var fields := IntoFix(AdminMessage.Logout(text, status), s, t).fields;
    if status.Some? {
      Decimal.ParseDigits(status.value, U32_MAX);
    }
    assert Get(fields, TAG_TEXT) == text;
    assert OptionalU32(fields, TAG_SESSION_STATUS) == status;
  }

  /** Reading back a Logon: the heartbeat interval and encryption method come back, the comp IDs come
      back as the ones `into_fix` was given, and ResetSeqNumFlag (141) never comes back, since "Y" and
      "N" are not what `parse::<bool>` reads. */
  lemma TryFromIntoFixLogon(hb: Option<U32>, sender: Option<Text>, target: Option<Text>, em: Option<U32>,
                            reset: Option<bool>, s: Text, t: Text)
    ensures TryFrom(IntoFix(AdminMessage.Logon(hb, sender, target, em, reset), s, t)) == Ok(AdminMessage.Logon(hb, Some(s), Some(t), em, None))
  {
    if hb.Some? {
      Decimal.ParseDigits(hb.value, U32_MAX);
    }
    if em.Some? {
      Decimal.ParseDigits(em.value, U32_MAX);
    }
  }

  /** Reading back a SequenceReset: NewSeqNo (36) comes back, GapFillFlag (123) never does. */
  lemma TryFromIntoFixSequenceReset(gapFill: Option<bool>, newSeqNo: U32, s: Text, t: Text)
    ensures TryFrom(IntoFix(AdminMessage.SequenceReset(gapFill, newSeqNo), s, t)) == Ok(AdminMessage.SequenceReset(None, newSeqNo))
  {
    Decimal.ParseDigits(newSeqNo, U32_MAX);
  }

  /** The flag that `into_fix` writes as "Y" comes back as absent rather than as `true`. */
  lemma FlagRoundTripFails(s: Text, t: Text)
    ensures TryFrom(IntoFix(AdminMessage.SequenceReset(Some(true), 1), s, t)) != Ok(AdminMessage.SequenceReset(Some(true), 1))
    ensures TryFrom(IntoFix(AdminMessage.Logon(None, Some(s), Some(t), None, Some(false)), s, t)) !=
      Ok(AdminMessage.Logon(None, Some(s), Some(t), None, Some(false)))
  {
    TryFromIntoFixSequenceReset(Some(true), 1, s, t);
    TryFromIntoFixLogon(None, Some(s), Some(t), None, Some(false), s, t);
  }

  /** A FIX boolean (section "Boolean" of the FIX 4.4 data types): "Y" or "N". */
  function ParseFixFlag(s: Text): (r: Option<bool>)
    ensures r.Some? <==> s == FLAG_YES || s == FLAG_NO
    ensures r.Some? ==> FlagText(r.value) == s
  {
    if s == FLAG_YES then Some(true) else if s == FLAG_NO then Some(false) else None
  }

  function OptionalFlag(fields: map<U32, Text>, tag: U32): Option<bool>
  {
    if tag in fields then ParseFixFlag(fields[tag]) else None
  }

  /** `try_from` reading the two flags as FIX booleans, as `into_fix` writes them. */
  function TryFromFixFlags(msg: FixMessage): (r: Result<AdminMessage, AdminError>)
    ensures msg.msgType !in {FixMsgType.Logon, FixMsgType.SequenceReset} ==> r == TryFrom(msg)
    ensures r.Ok? <==> TryFrom(msg).Ok?
  {
    var r := TryFrom(msg);
    if r.Ok? && r.value.Logon? then Ok(r.value.(resetSeqNumFlag := OptionalFlag(msg.fields, TAG_RESET_SEQ_NUM_FLAG)))
    else if r.Ok? && r.value.SequenceReset? then Ok(r.value.(gapFillFlag := OptionalFlag(msg.fields, TAG_GAP_FILL_FLAG)))
    else r
  }

  /** With flags read as FIX booleans every variant round-trips, apart from the Logon comp IDs, which
      come back as the ones `into_fix` was given. */
  lemma TryFromFixFlagsIntoFix(m: AdminMessage, s: Text, t: Text)
    ensures TryFromFixFlags(IntoFix(m, s, t)) ==
      if m.Logon? then Ok(m.(senderCompId := Some(s), targetCompId := Some(t))) else Ok(m)
  {
    match m
    case Logon(hb, sender, target, em, reset) => TryFromIntoFixLogon(hb, sender, target, em, reset, s, t);
    case SequenceReset(gapFill, newSeqNo) => TryFromIntoFixSequenceReset(gapFill, newSeqNo, s, t);
    case _ => TryFromIntoFix(m, s, t);
  }

  /** `build_logon` writes what `into_fix` writes for a Logon with only a heartbeat interval. */
  lemma BuildLogonIsIntoFix(hb: U32, s: Text, t: Text)
    ensures BuildLogon(hb, s, t) == IntoFix(AdminMessage.Logon(Some(hb), None, None, None, None), s, t)
  {
    var m := IntoFix(AdminMessage.Logon(Some(hb), None, None, None, None), s, t);
    assert m.fields == map[TAG_SENDER_COMP_ID := s, TAG_TARGET_COMP_ID := t, TAG_HEART_BT_INT := Decimal.Digits(hb)];
  }

  /** `build_heartbeat` and `build_test_request` write what `into_fix` writes for those variants. */
  lemma BuildHeartbeatIsIntoFix(id: Option<Text>, s: Text, t: Text)
    ensures BuildHeartbeat(id, s, t) == IntoFix(AdminMessage.Heartbeat(id), s, t)
  {
  }

  lemma BuildTestRequestIsIntoFix(id: Text, s: Text, t: Text)
    ensures BuildTestRequest(id, s, t) == IntoFix(AdminMessage.TestRequest(id), s, t)
  {
    var m := IntoFix(AdminMessage.TestRequest(id), s, t);
    assert m.fields == map[TAG_SENDER_COMP_ID := s, TAG_TARGET_COMP_ID := t, TAG_TEST_REQ_ID := id];
  }

  lemma BuildLogoutIsIntoFix(text: Option<Text>, s: Text, t: Text)
    ensures BuildLogout(text, s, t) == IntoFix(AdminMessage.Logout(text, None), s, t)
  {
  }

  lemma BuildResendRequestIsIntoFix(a: U32, b: U32, s: Text, t: Text)
    ensures BuildResendRequest(a, b, s, t) == IntoFix(AdminMessage.ResendRequest(a, b), s, t)
  {
    var m := IntoFix(AdminMessage.ResendRequest(a, b), s, t);
    assert m.fields == map[TAG_SENDER_COMP_ID := s, TAG_TARGET_COMP_ID := t,
                           TAG_BEGIN_SEQ_NO := Decimal.Digits(a), TAG_END_SEQ_NO := Decimal.Digits(b)];
  }

  /** `build_sequence_reset` writes GapFillFlag "Y" when asked to and omits it otherwise: `into_fix`
      of a SequenceReset whose flag is `Some(true)` or absent. */
  lemma BuildSequenceResetIsIntoFix(n: U32, gapFill: bool, s: Text, t: Text)
    ensures BuildSequenceReset(n, gapFill, s, t) ==
      IntoFix(AdminMessage.SequenceReset(if gapFill then Some(true) else None, n), s, t)
  {
    var m := IntoFix(AdminMessage.SequenceReset(if gapFill then Some(true) else None, n), s, t);
    if gapFill {
      assert m.fields == map[TAG_SENDER_COMP_ID := s, TAG_TARGET_COMP_ID := t,
                             TAG_NEW_SEQ_NO := Decimal.Digits(n), TAG_GAP_FILL_FLAG := FLAG_YES];
    } else {
      assert m.fields == map[TAG_SENDER_COMP_ID := s, TAG_TARGET_COMP_ID := t, TAG_NEW_SEQ_NO := Decimal.Digits(n)];
    }
  }

  /** `LogonBuilder`. */
  datatype LogonBuilder = LogonBuilder(heartBtIntSecs: Option<U32>, encryptMethod: Option<U32>, resetSeqNumFlag: Option<bool>)

  /** `LogonBuilder::new()`: no heartbeat interval, encryption method 0 (none), no reset flag. */
  function NewLogonBuilder(): (b: LogonBuilder)
    ensures b.heartBtIntSecs.None? && b.encryptMethod == Some(0) && b.resetSeqNumFlag.None?
  {
    LogonBuilder(None, Some(0), None)
  }

  /** `heartbeat_interval`: sets the interval and nothing else. */
  function WithHeartbeatInterval(b: LogonBuilder, seconds: U32): (r: LogonBuilder)
    ensures r.heartBtIntSecs == Some(seconds)
    ensures r == b.(heartBtIntSecs := r.heartBtIntSecs)
  {
    b.(heartBtIntSecs := Some(seconds))
  }

  /** `encrypt_method`: sets the encryption method and nothing else. */
  function WithEncryptMethod(b: LogonBuilder, encryption: U32): (r: LogonBuilder)
    ensures r.encryptMethod == Some(encryption)
    ensures r == b.(encryptMethod := r.encryptMethod)
  {
    b.(encryptMethod := Some(encryption))
  }

  /** `reset_sequence_numbers`: sets the reset flag and nothing else. */
  function WithResetSequenceNumbers(b: LogonBuilder, reset: bool): (r: LogonBuilder)
    ensures r.resetSeqNumFlag == Some(reset)
    ensures r == b.(resetSeqNumFlag := r.resetSeqNumFlag)
  {
    b.(resetSeqNumFlag := Some(reset))
  }

  /** `LogonBuilder::build`: the builder's three settings, and no comp IDs. */
  function BuildLogonMessage(b: LogonBuilder): (m: AdminMessage)
    ensures m.Logon? && m.senderCompId.None? && m.targetCompId.None?
    ensures m.heartBtIntSecs == b.heartBtIntSecs && m.encryptMethod == b.encryptMethod
    ensures m.resetSeqNumFlag == b.resetSeqNumFlag
  {
    AdminMessage.Logon(b.heartBtIntSecs, None, None, b.encryptMethod, b.resetSeqNumFlag)
  }

  /** A Logon built with only a heartbeat interval is written with 108, EncryptMethod 98 = "0", 49
      and 56, and reads back with the interval and encryption method 0. */
  lemma DefaultLogonOnTheWire(seconds: U32, s: Text, t: Text)
    ensures var msg := IntoFix(BuildLogonMessage(WithHeartbeatInterval(NewLogonBuilder(), seconds)), s, t);
      && msg.fields == map[TAG_HEART_BT_INT := Decimal.Digits(seconds), TAG_ENCRYPT_METHOD := Decimal.Digits(0),
                           TAG_SENDER_COMP_ID := s, TAG_TARGET_COMP_ID := t]
      && TryFrom(msg) == Ok(AdminMessage.Logon(Some(seconds), Some(s), Some(t), Some(0), None))
  {
    TryFromIntoFixLogon(Some(seconds), None, None, Some(0), None, s, t);
  }

  /** `TestRequestBuilder`. */
  datatype TestRequestBuilder = TestRequestBuilder(testReqId: Text)

  /** `TestRequestBuilder::build`: a TestRequest carrying the builder's id. */
  function BuildTestRequestMessage(b: TestRequestBuilder): (m: AdminMessage)
    ensures m.TestRequest? && m.requestId == b.testReqId
  {
    AdminMessage.TestRequest(b.testReqId)
  }

  /** `LogoutBuilder`. */
  datatype LogoutBuilder = LogoutBuilder(text: Option<Text>, sessionStatus: Option<U32>)

  /** `LogoutBuilder::new()`: nothing set. */
  function NewLogoutBuilder(): (b: LogoutBuilder)
    ensures b.text.None? && b.sessionStatus.None?
  {
    LogoutBuilder(None, None)
  }

  /** `text`: sets the text and nothing else. */
  function WithText(b: LogoutBuilder, text: Text): (r: LogoutBuilder)
    ensures r.text == Some(text)
    ensures r == b.(text := r.text)
  {
    b.(text := Some(text))
  }

  /** `session_status`: sets the status and nothing else. */
  function WithSessionStatus(b: LogoutBuilder, status: U32): (r: LogoutBuilder)
    ensures r.sessionStatus == Some(status)
    ensures r == b.(sessionStatus := r.sessionStatus)
  {
    b.(sessionStatus := Some(status))
  }

  /** `LogoutBuilder::build`: a Logout carrying the builder's text and status. */
  function BuildLogoutMessage(b: LogoutBuilder): (m: AdminMessage)
    ensures m.Logout? && m.text == b.text && m.sessionStatus == b.sessionStatus
  {
    AdminMessage.Logout(b.text, b.sessionStatus)
  }

  /** Whatever a Logout or TestRequest builder produces reads back unchanged after `into_fix`. */
  lemma BuiltMessagesRoundTrip(id: Text, text: Option<Text>, status: Option<U32>, s: Text, t: Text)
    ensures var b := LogoutBuilder(text, status);
      TryFrom(IntoFix(BuildLogoutMessage(b), s, t)) == Ok(AdminMessage.Logout(text, status))
    ensures TryFrom(IntoFix(BuildTestRequestMessage(TestRequestBuilder(id)), s, t)) == Ok(AdminMessage.TestRequest(id))
  {
    TryFromIntoFix(AdminMessage.Logout(text, status), s, t);
    TryFromIntoFix(AdminMessage.TestRequest(id), s, t);
  }
}
