/**
 * The message types and the in-memory message of the FIX wire codec (src/protocol.rs): the MsgType
 * (tag 35) code tables of the session-level messages of FIX 4.4, `FixMessage` with its constructor and
 * `set_field`, the CheckSum (tag 10) arithmetic, and the `build_*` convenience constructors.
 */
module Protocol {
  import opened Bytes
  import Decimal

  /** The bytes of a Rust `String`. */
  type Text = seq<Byte>

  datatype FixMsgType =
    | Logon
    | Heartbeat
    | TestRequest
    | Logout
    | ResendRequest
    | SequenceReset
    | Unknown(code: Text)

  /** A parsed message: BeginString (8), BodyLength (9), MsgType (35) and the remaining fields by tag. */
  datatype FixMessage = FixMessage(beginString: Text, bodyLength: nat, msgType: FixMsgType, fields: map<U32, Text>)

  const BEGIN_STRING: Text := [0x46, 0x49, 0x58, 0x2E, 0x34, 0x2E, 0x34]   // "FIX.4.4"

  /** The one-byte MsgType codes: "A", "0", "1", "5", "2", "4", and "?" for an unknown type. */
  const CODE_LOGON: Text := [0x41]
  const CODE_HEARTBEAT: Text := [0x30]
  const CODE_TEST_REQUEST: Text := [0x31]
  const CODE_LOGOUT: Text := [0x35]
  const CODE_RESEND_REQUEST: Text := [0x32]
  const CODE_SEQUENCE_RESET: Text := [0x34]
  const CODE_UNKNOWN: Text := [0x3F]

  predicate IsKnownCode(s: Text)
  {
    s == CODE_LOGON || s == CODE_HEARTBEAT || s == CODE_TEST_REQUEST ||
    s == CODE_LOGOUT || s == CODE_RESEND_REQUEST || s == CODE_SEQUENCE_RESET
  }

  /** `parse_msg_type`; printing its result with `msg_type_to_str` gives back the text it read. */
  function ParseMsgType(s: Text): (t: FixMsgType)
    ensures MsgTypeToStr(t) == s
    ensures t.Unknown? <==> !IsKnownCode(s)
  {
    if s == CODE_LOGON then Logon
    else if s == CODE_HEARTBEAT then Heartbeat
    else if s == CODE_TEST_REQUEST then TestRequest
    else if s == CODE_LOGOUT then Logout
    else if s == CODE_RESEND_REQUEST then ResendRequest
    else if s == CODE_SEQUENCE_RESET then SequenceReset
    else Unknown(s)
  }

  /** `msg_type_to_str`: a known type prints its one-byte code, an unknown type its own code. */
  function MsgTypeToStr(t: FixMsgType): (r: Text)
    ensures t.Unknown? ==> r == t.code
    ensures !t.Unknown? ==> IsKnownCode(r) && |r| == 1
  {
    match t
    case Logon => CODE_LOGON
    case Heartbeat => CODE_HEARTBEAT
    case TestRequest => CODE_TEST_REQUEST
    case Logout => CODE_LOGOUT
    case ResendRequest => CODE_RESEND_REQUEST
    case SequenceReset => CODE_SEQUENCE_RESET
    case Unknown(s) => s
  }

  /** `msg_type_as_str`, the table the encoder uses: an unknown type prints as "?". */
  function MsgTypeAsStr(t: FixMsgType): (s: Text)
    ensures |s| == 1 && s[0] != SOH && s[0] != EQUALS && IsAscii(s)
    ensures ParseMsgType(s) == if t.Unknown? then Unknown(CODE_UNKNOWN) else t
    ensures !t.Unknown? ==> s == MsgTypeToStr(t)
  {
    match t
    case Logon => CODE_LOGON
    case Heartbeat => CODE_HEARTBEAT
    case TestRequest => CODE_TEST_REQUEST
    case Logout => CODE_LOGOUT
    case ResendRequest => CODE_RESEND_REQUEST
    case SequenceReset => CODE_SEQUENCE_RESET
    case Unknown(_) => CODE_UNKNOWN
  }

  /** `msg_type_to_str` is inverted by `parse_msg_type` exactly when the type is not an "unknown" type
      whose code happens to be one of the six known codes. */
  lemma ParseMsgTypeOfToStr(t: FixMsgType)
    ensures ParseMsgType(MsgTypeToStr(t)) == t <==> !(t.Unknown? && IsKnownCode(t.code))
  {
  }

  /** `FixMessage::new`: a FIX.4.4 message of the given type, with body length 0 and no fields. */
  function NewMessage(msgType: FixMsgType): (m: FixMessage)
    ensures m.beginString == BEGIN_STRING && m.bodyLength == 0
    ensures m.msgType == msgType && |m.fields| == 0
  {
    FixMessage(BEGIN_STRING, 0, msgType, map[])
  }

  /** `FixMessage::set_field`: inserts or overwrites one field and leaves everything else as it was. */
  function SetField(m: FixMessage, tag: U32, value: Text): (r: FixMessage)
    ensures r.beginString == m.beginString && r.bodyLength == m.bodyLength && r.msgType == m.msgType
    ensures tag in r.fields && r.fields[tag] == value
    ensures r.fields - {tag} == m.fields - {tag}
  {
    m.(fields := m.fields[tag := value])
  }

  /** `compute_checksum`: the sum of the bytes, modulo 256. */
  function Checksum(s: seq<Byte>): (c: nat)
    ensures c <= U8_MAX
  {
    Sum(s) % 256
  }

  /** The admin field tags the constructors set. */
  const TAG_BEGIN_SEQ_NO: U32 := 7
  const TAG_BEGIN_STRING: U32 := 8
  const TAG_BODY_LENGTH: U32 := 9
  const TAG_CHECKSUM: U32 := 10
  const TAG_END_SEQ_NO: U32 := 16
  const TAG_MSG_TYPE: U32 := 35
  const TAG_NEW_SEQ_NO: U32 := 36
  const TAG_SENDER_COMP_ID: U32 := 49
  const TAG_TARGET_COMP_ID: U32 := 56
  const TAG_TEXT: U32 := 58
  const TAG_ENCRYPT_METHOD: U32 := 98
  const TAG_HEART_BT_INT: U32 := 108
  const TAG_TEST_REQ_ID: U32 := 112
  const TAG_GAP_FILL_FLAG: U32 := 123
  const TAG_RESET_SEQ_NUM_FLAG: U32 := 141
  const TAG_SESSION_STATUS: U32 := 1409

  const FLAG_YES: Text := [0x59]   // "Y"
  const FLAG_NO: Text := [0x4E]    // "N"

  /** `build_logon`. */
  function BuildLogon(heartBtIntSecs: U32, senderCompId: Text, targetCompId: Text): (m: FixMessage)
    ensures m.beginString == BEGIN_STRING && m.bodyLength == 0 && m.msgType == Logon
    ensures m.fields == map[TAG_SENDER_COMP_ID := senderCompId, TAG_TARGET_COMP_ID := targetCompId,
                            TAG_HEART_BT_INT := Decimal.Digits(heartBtIntSecs)]
  {
    var m := SetField(NewMessage(Logon), TAG_SENDER_COMP_ID, senderCompId);
    var m := SetField(m, TAG_TARGET_COMP_ID, targetCompId);
    SetField(m, TAG_HEART_BT_INT, Decimal.Digits(heartBtIntSecs))
  }

  /** `build_heartbeat`: TestReqID (112) only when one is given. */
  function BuildHeartbeat(testReqId: Wrappers.Option<Text>, senderCompId: Text, targetCompId: Text): (m: FixMessage)
    ensures m.beginString == BEGIN_STRING && m.bodyLength == 0 && m.msgType == Heartbeat
    ensures m.fields == if testReqId.Some?
                        then map[TAG_SENDER_COMP_ID := senderCompId, TAG_TARGET_COMP_ID := targetCompId,
                                 TAG_TEST_REQ_ID := testReqId.value]
                        else map[TAG_SENDER_COMP_ID := senderCompId, TAG_TARGET_COMP_ID := targetCompId]
  {
    var m := SetField(NewMessage(Heartbeat), TAG_SENDER_COMP_ID, senderCompId);
    var m := SetField(m, TAG_TARGET_COMP_ID, targetCompId);
    if testReqId.Some? then SetField(m, TAG_TEST_REQ_ID, testReqId.value) else m
  }

  /** `build_test_request`. */
  function BuildTestRequest(id: Text, senderCompId: Text, targetCompId: Text): (m: FixMessage)
    ensures m.beginString == BEGIN_STRING && m.bodyLength == 0 && m.msgType == TestRequest
    ensures m.fields == map[TAG_SENDER_COMP_ID := senderCompId, TAG_TARGET_COMP_ID := targetCompId,
                            TAG_TEST_REQ_ID := id]
  {
    var m := SetField(NewMessage(TestRequest), TAG_SENDER_COMP_ID, senderCompId);
    var m := SetField(m, TAG_TARGET_COMP_ID, targetCompId);
    SetField(m, TAG_TEST_REQ_ID, id)
  }

  /** `build_logout`: Text (58) only when one is given. */
  function BuildLogout(text: Wrappers.Option<Text>, senderCompId: Text, targetCompId: Text): (m: FixMessage)
    ensures m.beginString == BEGIN_STRING && m.bodyLength == 0 && m.msgType == Logout
    ensures m.fields == if text.Some?
                        then map[TAG_SENDER_COMP_ID := senderCompId, TAG_TARGET_COMP_ID := targetCompId,
                                 TAG_TEXT := text.value]
                        else map[TAG_SENDER_COMP_ID := senderCompId, TAG_TARGET_COMP_ID := targetCompId]
  {
    var m := SetField(NewMessage(Logout), TAG_SENDER_COMP_ID, senderCompId);
    var m := SetField(m, TAG_TARGET_COMP_ID, targetCompId);
    if text.Some? then SetField(m, TAG_TEXT, text.value) else m
  }

  /** `build_resend_request`. */
  function BuildResendRequest(beginSeqNo: U32, endSeqNo: U32, senderCompId: Text, targetCompId: Text): (m: FixMessage)
    ensures m.beginString == BEGIN_STRING && m.bodyLength == 0 && m.msgType == ResendRequest
    ensures m.fields == map[TAG_SENDER_COMP_ID := senderCompId, TAG_TARGET_COMP_ID := targetCompId,
                            TAG_BEGIN_SEQ_NO := Decimal.Digits(beginSeqNo), TAG_END_SEQ_NO := Decimal.Digits(endSeqNo)]
  {
    var m := SetField(NewMessage(ResendRequest), TAG_SENDER_COMP_ID, senderCompId);
    var m := SetField(m, TAG_TARGET_COMP_ID, targetCompId);
    var m := SetField(m, TAG_BEGIN_SEQ_NO, Decimal.Digits(beginSeqNo));
    SetField(m, TAG_END_SEQ_NO, Decimal.Digits(endSeqNo))
  }

  /** `build_sequence_reset`: GapFillFlag (123) is written as "Y" when set and omitted otherwise. */
  function BuildSequenceReset(newSeqNo: U32, gapFill: bool, senderCompId: Text, targetCompId: Text): (m: FixMessage)
    ensures m.beginString == BEGIN_STRING && m.bodyLength == 0 && m.msgType == SequenceReset
    ensures m.fields == if gapFill
                        then map[TAG_SENDER_COMP_ID := senderCompId, TAG_TARGET_COMP_ID := targetCompId,
                                 TAG_NEW_SEQ_NO := Decimal.Digits(newSeqNo), TAG_GAP_FILL_FLAG := FLAG_YES]
                        else map[TAG_SENDER_COMP_ID := senderCompId, TAG_TARGET_COMP_ID := targetCompId,
                                 TAG_NEW_SEQ_NO := Decimal.Digits(newSeqNo)]
  {
    var m := SetField(NewMessage(SequenceReset), TAG_SENDER_COMP_ID, senderCompId);
    var m := SetField(m, TAG_TARGET_COMP_ID, targetCompId);
    var m := SetField(m, TAG_NEW_SEQ_NO, Decimal.Digits(newSeqNo));
    if gapFill then SetField(m, TAG_GAP_FILL_FLAG, FLAG_YES) else m
  }
}
