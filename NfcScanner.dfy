/**
 * The Android side of the plugin: the NFC status check, the dispatch of
 * actions by name, the field that holds the reader-mode callback and the
 * delivery of discovered tags to it, and the uppercase hex encoder.
 *
 * The NFC adapter is an abstract value, callback contexts are objects that
 * record every plugin result sent to them, and what the Android reader-mode
 * calls do is passed in as an outcome.
 */
module NfcScanner {
  import opened Wrappers
  import opened Bits
  import NfcUtil

  // ---------------------------------------------------------------------------
  // getNfcStatus
  // ---------------------------------------------------------------------------

  const StatusNfcOk := "NFC_OK"
  const StatusNoNfc := "NO_NFC"
  const StatusNfcDisabled := "NFC_DISABLED"

  /** The default NFC adapter of the device: missing, present but off, or on. */
  datatype Adapter = NoAdapter | Disabled | Enabled

  /** getNfcStatus: one status string per adapter state. */
  function GetNfcStatus(adapter: Adapter): (status: string)
    ensures status == StatusNoNfc <==> adapter == NoAdapter
    ensures status == StatusNfcDisabled <==> adapter == Disabled
    ensures status == StatusNfcOk <==> adapter == Enabled
  {
    assert StatusNfcOk[1] != StatusNoNfc[1];
    assert |StatusNfcDisabled| != |StatusNfcOk| && |StatusNfcDisabled| != |StatusNoNfc|;
    match adapter
    case NoAdapter => StatusNoNfc
    case Disabled => StatusNfcDisabled
    case Enabled => StatusNfcOk
  }

  // ---------------------------------------------------------------------------
  // Action names and String.equalsIgnoreCase
  // ---------------------------------------------------------------------------

  datatype Action = NfcEnabled | StartReading | StopReading | RegisterReaderModeCallback | UnregisterReaderModeCallback

  /** The action strings execute compares with: non-empty and ASCII. */
  function ActionName(a: Action): (name: string)
    ensures name != [] && IsAscii(name)
  {
    match a
    case NfcEnabled => "nfcEnabled"
    case StartReading => "startReading"
    case StopReading => "stopReading"
    case RegisterReaderModeCallback => "registerReaderModeCallback"
    case UnregisterReaderModeCallback => "unregisterReaderModeCallback"
  }

  /**
   * Character.toUpperCase on the characters whose upper case is ASCII: the
   * ASCII lowercase letters, dotless i (U+0131) and long s (U+017F); every
   * other character is kept.
   */
  function JavaUpper(c: char): char
  {
    if 'a' <= c <= 'z' then (c as int - 32) as char
    else if c == '\U{0131}' then 'I'
    else if c == '\U{017F}' then 'S'
    else c
  }

  /**
   * Character.toLowerCase on the characters whose lower case is ASCII: the
   * ASCII uppercase letters, capital I with dot (U+0130) and the Kelvin sign
   * (U+212A); every other character is kept.
   */
  function JavaLower(c: char): char
  {
    if 'A' <= c <= 'Z' then (c as int + 32) as char
    else if c == '\U{0130}' then 'i'
    else if c == '\U{212A}' then 'k'
    else c
  }

  /** The per-character test of String.equalsIgnoreCase. */
  predicate CharEqualsIgnoreCase(a: char, b: char)
  {
    a == b || JavaUpper(a) == JavaUpper(b) || JavaLower(JavaUpper(a)) == JavaLower(JavaUpper(b))
  }

  /** String.equalsIgnoreCase: equal lengths and every character pair equal up to case. */
  predicate EqualsIgnoreCase(s: string, t: string)
  {
    |s| == |t| && forall i :: 0 <= i < |s| ==> CharEqualsIgnoreCase(s[i], t[i])
  }

  /** On ASCII letters the two case mappings are inverse to each other. */
  lemma AsciiCaseInverse(c: char)
    ensures 'a' <= c <= 'z' ==> 'A' <= JavaUpper(c) <= 'Z' && JavaLower(JavaUpper(c)) == c
    ensures 'A' <= c <= 'Z' ==> 'a' <= JavaLower(c) <= 'z' && JavaUpper(JavaLower(c)) == c
    ensures !('a' <= c <= 'z') && c as int < 128 ==> JavaUpper(c) == c
  {
  }

  /** ASCII lower-casing, the reference the Java test is compared with. */
  function AsciiFold(c: char): char
  {
    if 'A' <= c <= 'Z' then (c as int + 32) as char else c
  }

  predicate IsAscii(s: string)
  {
    forall i :: 0 <= i < |s| ==> s[i] as int < 128
  }

  /** Two ASCII characters are equal ignoring case exactly when their lower cases are equal. */
  lemma CharEqualsIgnoreCaseAscii(a: char, b: char)
    requires a as int < 128 && b as int < 128
    ensures CharEqualsIgnoreCase(a, b) <==> AsciiFold(a) == AsciiFold(b)
  {
    AsciiCaseInverse(a);
    AsciiCaseInverse(b);
  }

  /**
   * On ASCII strings equalsIgnoreCase is equality after lower-casing every
   * letter.
   */
  lemma EqualsIgnoreCaseAscii(s: string, t: string)
    requires IsAscii(s) && IsAscii(t)
    ensures EqualsIgnoreCase(s, t) <==> |s| == |t| && forall i :: 0 <= i < |s| ==> AsciiFold(s[i]) == AsciiFold(t[i])
  {
    if |s| == |t| {
      forall i | 0 <= i < |s|
        ensures CharEqualsIgnoreCase(s[i], t[i]) <==> AsciiFold(s[i]) == AsciiFold(t[i])
      {
        CharEqualsIgnoreCaseAscii(s[i], t[i]);
      }
    }
  }

  /** The ASCII letter of the other case, and any other character unchanged. */
  function AsciiOtherCase(c: char): char
  {
    if 'a' <= c <= 'z' then (c as int - 32) as char
    else if 'A' <= c <= 'Z' then (c as int + 32) as char
    else c
  }

  /**
   * The characters that equalsIgnoreCase matches with an ASCII character b:
   * b itself, b in the other case, and the four non-ASCII characters whose
   * Java case mapping is an ASCII letter (dotless i and capital I with dot
   * for i, long s for s, the Kelvin sign for k).
   */
  predicate MatchesAscii(a: char, b: char)
  {
    || a == b
    || a == AsciiOtherCase(b)
    || ((a == '\U{0131}' || a == '\U{0130}') && AsciiFold(b) == 'i')
    || (a == '\U{017F}' && AsciiFold(b) == 's')
    || (a == '\U{212A}' && AsciiFold(b) == 'k')
  }

  /** Against an ASCII character, the per-character rule is exactly MatchesAscii. */
  lemma CharEqualsIgnoreCaseOfAscii(a: char, b: char)
    requires b as int < 128
    ensures CharEqualsIgnoreCase(a, b) <==> MatchesAscii(a, b)
  {
    AsciiCaseInverse(b);
  }

  /**
   * Against an ASCII string t, equalsIgnoreCase holds exactly when the
   * lengths agree and every character of s matches the one of t.
   */
  lemma EqualsIgnoreCaseOneAscii(s: string, t: string)
    requires IsAscii(t)
    ensures EqualsIgnoreCase(s, t) <==> |s| == |t| && forall i :: 0 <= i < |s| ==> MatchesAscii(s[i], t[i])
  {
    if |s| == |t| {
      forall i | 0 <= i < |s|
        ensures CharEqualsIgnoreCase(s[i], t[i]) <==> MatchesAscii(s[i], t[i])
      {
        CharEqualsIgnoreCaseOfAscii(s[i], t[i]);
      }
    }
  }

  /** Outside ASCII: dotless i matches i, and the Kelvin sign matches k. */
  lemma NonAsciiMatches()
    ensures EqualsIgnoreCase("\U{0131}", "i") && EqualsIgnoreCase("\U{212A}", "K")
    ensures !EqualsIgnoreCase("\U{0131}", "j")
  {
    assert CharEqualsIgnoreCase('\U{0131}', 'i');
    assert CharEqualsIgnoreCase('\U{212A}', 'K');
    assert !CharEqualsIgnoreCase("\U{0131}"[0], "j"[0]);
  }

  /** The if-chain of execute: the first action whose name matches, ignoring case. */
  function Route(action: string): (r: Option<Action>)
    ensures r.Some? ==> EqualsIgnoreCase(action, ActionName(r.value))
  {
    if EqualsIgnoreCase(action, ActionName(NfcEnabled)) then Some(NfcEnabled)
    else if EqualsIgnoreCase(action, ActionName(StartReading)) then Some(StartReading)
    else if EqualsIgnoreCase(action, ActionName(StopReading)) then Some(StopReading)
    else if EqualsIgnoreCase(action, ActionName(RegisterReaderModeCallback)) then Some(RegisterReaderModeCallback)
    else if EqualsIgnoreCase(action, ActionName(UnregisterReaderModeCallback)) then Some(UnregisterReaderModeCallback)
    else None
  }

  /** The five names have five different lengths. */
  lemma NameLengths(a: Action, b: Action)
    ensures |ActionName(a)| == |ActionName(b)| <==> a == b
  {
  }

  /** An action is routed to a exactly when its name equals a's name up to case. */
  lemma RouteIff(action: string, a: Action)
    ensures Route(action) == Some(a) <==> EqualsIgnoreCase(action, ActionName(a))
  {
    if EqualsIgnoreCase(action, ActionName(a)) {
      var r := Route(action);
      assert r.Some?;
      NameLengths(a, r.value);
    }
  }

  /** Each action name, in any letter case, routes to its action. */
  lemma RouteOfName(a: Action, action: string)
    requires |action| == |ActionName(a)|
    requires forall i :: 0 <= i < |action| ==> JavaUpper(action[i]) == JavaUpper(ActionName(a)[i])
    ensures Route(action) == Some(a)
  {
    RouteIff(action, a);
  }

  // ---------------------------------------------------------------------------
  // Plugin results and callback contexts
  // ---------------------------------------------------------------------------

  datatype Status = Ok | Error

  /** A discovered tag: an opaque handle and the class names of its technologies. */
  datatype Tag = Tag(handle: nat, techList: seq<string>)

  /**
   * What a result carries: a message, or the JSON that Util.ndefToJSON or
   * Util.tagToJSON builds for a tag (those builders are opaque here).
   */
  datatype Payload = Message(text: string) | NdefJson(ndefTag: Tag) | TagJson(tag: Tag)

  datatype PluginResult = PluginResult(status: Status, payload: Payload, keepCallback: bool)

  /** callbackContext.success(message) */
  function OkMessage(text: string): (r: PluginResult)
    ensures r.status == Ok && r.payload == Message(text) && !r.keepCallback
  {
    PluginResult(Ok, Message(text), false)
  }

  /** callbackContext.error(message) */
  function ErrorMessage(text: string): (r: PluginResult)
    ensures r.status == Error && r.payload == Message(text) && !r.keepCallback
  {
    PluginResult(Error, Message(text), false)
  }

  /** A Cordova callback context, observed through the results sent to it. */
  class CallbackContext {
    var sent: seq<PluginResult>

    constructor()
      ensures sent == []
    {
      sent := [];
    }

    method SendPluginResult(result: PluginResult)
      modifies this
      ensures sent == old(sent) + [result]
    {
      sent := sent + [result];
    }

    method SendSuccess(text: string)
      modifies this
      ensures sent == old(sent) + [OkMessage(text)]
    {
      SendPluginResult(OkMessage(text));
    }

    method SendError(text: string)
      modifies this
      ensures sent == old(sent) + [ErrorMessage(text)]
    {
      SendPluginResult(ErrorMessage(text));
    }
  }

  // ---------------------------------------------------------------------------
  // onTagDiscovered
  // ---------------------------------------------------------------------------

  /** Ndef.class.getName() */
  const NdefTech := "android.nfc.tech.Ndef"

  /** The JSON built for a tag: by the NDEF decoder when the tag lists the Ndef technology. */
  function TagPayload(tag: Tag): Payload
  {
    if NdefTech in tag.techList then NdefJson(tag) else TagJson(tag)
  }

  /** The result onTagDiscovered sends: OK, the tag's JSON, and the callback kept. */
  function TagResult(tag: Tag): (r: PluginResult)
    ensures r.status == Ok && r.keepCallback
    ensures r.payload.NdefJson? <==> NdefTech in tag.techList
    ensures r.payload == NdefJson(tag) || r.payload == TagJson(tag)
  {
    PluginResult(Ok, TagPayload(tag), true)
  }

  // ---------------------------------------------------------------------------
  // execute
  // ---------------------------------------------------------------------------

  /** Messages of the action methods. */
  const ReaderStarted := "Reader Mode started."
  const ReaderStopped := "Reader Mode stopped."
  const NotSupported := "NFC not supported on this device"
  const Unregistered := "readerModeCallback is unregistered."

  /** What the source throws when it calls a method on a null callback context. */
  const NullPointer := "java.lang.NullPointerException"

  /** How a call of execute ends: it returns a boolean or throws. */
  datatype Outcome = Returned(value: bool) | Threw(exception: string)

  /**
   * The reply of doStartReading or doStopReading: an error without an
   * adapter, the message of the exception the reader-mode call threw, or
   * the success message.
   */
  function ReaderReply(hasAdapter: bool, failure: Option<string>, done: string): (r: PluginResult)
    ensures r.status == Ok <==> hasAdapter && failure.None?
    ensures r.status == Ok ==> r.payload == Message(done)
    ensures !hasAdapter ==> r.payload == Message(NotSupported)
    ensures hasAdapter && failure.Some? ==> r.payload == Message(failure.value)
    ensures !r.keepCallback
  {
    if !hasAdapter then ErrorMessage(NotSupported)
    else if failure.Some? then ErrorMessage(failure.value)
    else OkMessage(done)
  }

  /** The results execute sends to a non-null callback context. */
  function Replies(adapter: Adapter, route: Option<Action>, failure: Option<string>): seq<PluginResult>
  {
    var status := GetNfcStatus(adapter);
    if status != StatusNfcOk then [ErrorMessage(status)]
    else match route
      case None => []
      case Some(NfcEnabled) => [OkMessage(StatusNfcOk)]
      case Some(StartReading) => [ReaderReply(adapter != NoAdapter, failure, ReaderStarted)]
      case Some(StopReading) => [ReaderReply(adapter != NoAdapter, failure, ReaderStopped)]
      case Some(RegisterReaderModeCallback) => []
      case Some(UnregisterReaderModeCallback) => [OkMessage(Unregistered)]
  }

  /** How execute ends; contextIsNull says whether the callback context is null. */
  function ExecuteOutcome(adapter: Adapter, route: Option<Action>, contextIsNull: bool): Outcome
  {
    if GetNfcStatus(adapter) != StatusNfcOk then
      if contextIsNull then Threw(NullPointer) else Returned(true)
    else match route
      case None => Returned(false)
      case Some(NfcEnabled) => if contextIsNull then Threw(NullPointer) else Returned(true)
      case Some(_) => Returned(true)
  }

  /** The reader-mode callback after execute, from the one before. */
  function NextCallback(adapter: Adapter, route: Option<Action>, context: CallbackContext?, previous: CallbackContext?): CallbackContext?
  {
    if GetNfcStatus(adapter) != StatusNfcOk then previous
    else match route
      case Some(RegisterReaderModeCallback) => if context != null then context else previous
      case Some(UnregisterReaderModeCallback) => null
      case _ => previous
  }

  /**
   * Without NFC, execute sends the status as an error and returns true (or
   * throws on a null context), whatever the action, and keeps the callback.
   */
  lemma NotOkGate(adapter: Adapter, action: string, failure: Option<string>, context: CallbackContext?, previous: CallbackContext?)
    requires adapter != Enabled
    ensures GetNfcStatus(adapter) != StatusNfcOk
    ensures Replies(adapter, Route(action), failure) == [ErrorMessage(GetNfcStatus(adapter))]
    ensures ExecuteOutcome(adapter, Route(action), context == null) == if context == null then Threw(NullPointer) else Returned(true)
    ensures NextCallback(adapter, Route(action), context, previous) == previous
  {
  }

  /** With NFC on, a known action returns true and an unknown one false. */
  lemma KnownActionsReturnTrue(action: string)
    ensures ExecuteOutcome(Enabled, Route(action), false) == Returned(Route(action).Some?)
  {
  }

  /** An unknown action sends nothing and keeps the callback. */
  lemma UnknownActionIsInert(adapter: Adapter, action: string, failure: Option<string>, context: CallbackContext?, previous: CallbackContext?)
    requires adapter == Enabled && Route(action) == None
    ensures Replies(adapter, Route(action), failure) == []
    ensures NextCallback(adapter, Route(action), context, previous) == previous
  {
  }

  /** nfcEnabled answers "NFC_OK"; every known action but register sends exactly one reply. */
  lemma RepliesOfKnownActions(a: Action, failure: Option<string>)
    ensures a == NfcEnabled ==> Replies(Enabled, Some(a), failure) == [OkMessage(StatusNfcOk)]
    ensures |Replies(Enabled, Some(a), failure)| == if a == RegisterReaderModeCallback then 0 else 1
    ensures a == StartReading ==>
      Replies(Enabled, Some(a), failure) == [if failure.Some? then ErrorMessage(failure.value) else OkMessage(ReaderStarted)]
  {
  }

  /** Only register and unregister change the callback: to the context if non-null, and to null. */
  lemma CallbackChanges(adapter: Adapter, route: Option<Action>, context: CallbackContext?, previous: CallbackContext?)
    ensures NextCallback(adapter, route, context, previous) != previous ==>
      adapter == Enabled && (route == Some(UnregisterReaderModeCallback) || (route == Some(RegisterReaderModeCallback) && context != null))
  {
  }

  // ---------------------------------------------------------------------------
  // The plugin object
  // ---------------------------------------------------------------------------

  class NfcScanner {
    var readerModeCallback: CallbackContext?

    constructor()
      ensures readerModeCallback == null
    {
      readerModeCallback := null;
    }

    /**
     * execute: the adapter is the device's current adapter state, and
     * failure is the message of the exception a reader-mode call throws, if any.
     */
    method Execute(action: string, adapter: Adapter, context: CallbackContext?, failure: Option<string>) returns (r: Outcome)
      modifies this, context
      ensures r == ExecuteOutcome(adapter, Route(action), context == null)
      ensures readerModeCallback == NextCallback(adapter, Route(action), context, old(readerModeCallback))
      ensures context != null ==> context.sent == old(context.sent) + Replies(adapter, Route(action), failure)
    {
      var status := GetNfcStatus(adapter);
      if status != StatusNfcOk {
        if context == null {
          return Threw(NullPointer);
        }
        context.SendError(status);
        return Returned(true);
      }
      var route := Route(action);
      match route {
        case None =>
          return Returned(false);
        case Some(NfcEnabled) =>
          if context == null {
            return Threw(NullPointer);
          }
          context.SendSuccess(StatusNfcOk);
          return Returned(true);
        case Some(StartReading) =>
          var b := DoStartReading(adapter != NoAdapter, failure, context);
          return Returned(b);
        case Some(StopReading) =>
          var b := DoStopReading(adapter != NoAdapter, failure, context);
          return Returned(b);
        case Some(RegisterReaderModeCallback) =>
          var b := DoRegisterReaderModeCallback(context);
          return Returned(b);
        case Some(UnregisterReaderModeCallback) =>
          var b := DoUnregisterReaderModeCallback(context);
          return Returned(b);
      }
    }

    /** doStartReading: one reply to a non-null context; a null one swallows the exception. */
    method DoStartReading(hasAdapter: bool, failure: Option<string>, context: CallbackContext?) returns (r: bool)
      modifies context
      ensures r
      ensures context != null ==> context.sent == old(context.sent) + [ReaderReply(hasAdapter, failure, ReaderStarted)]
    {
      if context != null {
        if hasAdapter {
          if failure.Some? {
            context.SendError(failure.value);
          } else {
            context.SendSuccess(ReaderStarted);
          }
        } else {
          context.SendError(NotSupported);
        }
      }
      return true;
    }

    /** doStopReading, the same shape as doStartReading. */
    method DoStopReading(hasAdapter: bool, failure: Option<string>, context: CallbackContext?) returns (r: bool)
      modifies context
      ensures r
      ensures context != null ==> context.sent == old(context.sent) + [ReaderReply(hasAdapter, failure, ReaderStopped)]
    {
      if context != null {
        if hasAdapter {
          if failure.Some? {
            context.SendError(failure.value);
          } else {
            context.SendSuccess(ReaderStopped);
          }
        } else {
          context.SendError(NotSupported);
        }
      }
      return true;
    }

    /** doRegisterReaderModeCallback: a non-null context replaces the callback; nothing is sent. */
    method DoRegisterReaderModeCallback(context: CallbackContext?) returns (r: bool)
      modifies this
      ensures r
      ensures readerModeCallback == if context != null then context else old(readerModeCallback)
    {
      if context != null {
        readerModeCallback := context;
      }
      return true;
    }

    /** doUnregisterReaderModeCallback: the callback becomes null; a non-null context gets a success. */
    method DoUnregisterReaderModeCallback(context: CallbackContext?) returns (r: bool)
      modifies this, context
      ensures r
      ensures readerModeCallback == null
      ensures context != null ==> context.sent == old(context.sent) + [OkMessage(Unregistered)]
    {
      readerModeCallback := null;
      if context != null {
        context.SendSuccess(Unregistered);
      }
      return true;
    }

    /** onTagDiscovered: the tag's result goes to the current callback, if there is one. */
    method OnTagDiscovered(tag: Tag)
      modifies readerModeCallback
      ensures readerModeCallback != null ==> readerModeCallback.sent == old(readerModeCallback.sent) + [TagResult(tag)]
    {
      var result := PluginResult(Ok, TagPayload(tag), false);
      result := result.(keepCallback := true);
      if readerModeCallback != null {
        readerModeCallback.SendPluginResult(result);
      }
    }
  }

  // ---------------------------------------------------------------------------
  // bytesToHex
  // ---------------------------------------------------------------------------

  /** A Java byte. */
  type JByte = b: int | -128 <= b < 128

  /** hexArray */
  const HexArray := "0123456789ABCDEF"

  predicate IsUpperHexDigit(ch: char)
  {
    '0' <= ch <= '9' || 'A' <= ch <= 'F'
  }

  /** hi and lo are uppercase digits that denote b & 0xFF. */
  predicate IsUpperPairOf(hi: char, lo: char, b: int)
  {
    IsUpperHexDigit(hi) && IsUpperHexDigit(lo)
    && 16 * NfcUtil.HexDigitValue(hi) + NfcUtil.HexDigitValue(lo) == b % 256
  }

  /** s holds the uppercase hex of every byte, two digits each, in order. */
  ghost predicate IsUpperHexOf(s: string, bytes: seq<int>)
  {
    |s| == 2 * |bytes| && forall j :: 0 <= j < |bytes| ==> IsUpperPairOf(s[2 * j], s[2 * j + 1], bytes[j])
  }

  /** Entry d of hexArray is the uppercase digit of value d. */
  lemma HexArrayDigit(d: nat)
    requires d < 16
    ensures IsUpperHexDigit(HexArray[d]) && NfcUtil.HexDigitValue(HexArray[d]) == d
  {
  }

  /** The two table lookups of one loop step give the pair of b. */
  lemma HexArrayPair(b: int, v: nat)
    requires v == MaskByte(b, 0xFF)
    ensures ShiftRight(v, 4) < 16 && And(v, 0x0F) < 16
    ensures IsUpperPairOf(HexArray[ShiftRight(v, 4)], HexArray[And(v, 0x0F)], b)
  {
    MaskByteFF(b);
    ShiftRightDiv(v, 4);
    assert Pow2(4) == 16;
    AndLowMasks(v);
    HexArrayDigit(v / 16);
    HexArrayDigit(v % 16);
  }

  /** bytesToHex: two uppercase hex digits per byte, filled into a char array. */
  method BytesToHex(bytes: seq<JByte>) returns (s: string)
    ensures IsUpperHexOf(s, bytes)
  {
    var hexChars := new char[|bytes| * 2];
    for j := 0 to |bytes|
      invariant forall i :: 0 <= i < j ==> IsUpperPairOf(hexChars[2 * i], hexChars[2 * i + 1], bytes[i])
    {
      var v := MaskByte(bytes[j], 0xFF);
      HexArrayPair(bytes[j], v);
      hexChars[j * 2] := HexArray[ShiftRight(v, 4)];
      hexChars[j * 2 + 1] := HexArray[And(v, 0x0F)];
    }
    s := hexChars[..];
  }

  /** The uppercase digits of a pair are fixed by the byte they denote. */
  lemma UpperPairUnique(hi: char, lo: char, hi': char, lo': char, b: int)
    requires IsUpperPairOf(hi, lo, b) && IsUpperPairOf(hi', lo', b)
    ensures hi == hi' && lo == lo'
  {
    var v := b % 256;
    DivUnique(v, 16, NfcUtil.HexDigitValue(hi), NfcUtil.HexDigitValue(lo));
    DivUnique(v, 16, NfcUtil.HexDigitValue(hi'), NfcUtil.HexDigitValue(lo'));
    ModUnique(v, 16, NfcUtil.HexDigitValue(hi), NfcUtil.HexDigitValue(lo));
    ModUnique(v, 16, NfcUtil.HexDigitValue(hi'), NfcUtil.HexDigitValue(lo'));
  }

  /** There is only one uppercase hex string of a byte sequence. */
  lemma UpperHexUnique(s: string, t: string, bytes: seq<int>)
    requires IsUpperHexOf(s, bytes) && IsUpperHexOf(t, bytes)
    ensures s == t
  {
    forall i | 0 <= i < |s|
      ensures s[i] == t[i]
    {
      var j := i / 2;
      UpperPairUnique(s[2 * j], s[2 * j + 1], t[2 * j], t[2 * j + 1], bytes[j]);
      assert i == 2 * j || i == 2 * j + 1;
    }
  }

  /**
   * The JavaScript parser hexStringToArrayBuffer reads the hex bytesToHex
   * writes back as the unsigned bytes, for every non-empty array.
   */
  lemma UpperHexParses(s: string, bytes: seq<int>)
    requires IsUpperHexOf(s, bytes) && bytes != []
    ensures NfcUtil.HexStringToArrayBuffer(s) == Success(seq(|bytes|, k requires 0 <= k < |bytes| => bytes[k] % 256))
  {
    assert NfcUtil.AllHexDigits(s) by {
      forall i | 0 <= i < |s|
        ensures NfcUtil.IsHexDigit(s[i])
      {
        var j := i / 2;
        assert IsUpperPairOf(s[2 * j], s[2 * j + 1], bytes[j]);
        assert i == 2 * j || i == 2 * j + 1;
      }
    }
    NfcUtil.HexDigitsToArrayBuffer(s);
    var value := NfcUtil.HexStringToArrayBuffer(s).value;
    var unsigned := seq(|bytes|, k requires 0 <= k < |bytes| => bytes[k] % 256);
    assert |value| == |unsigned|;
    forall k | 0 <= k < |bytes|
      ensures value[k] == unsigned[k]
    {
      assert IsUpperPairOf(s[2 * k], s[2 * k + 1], bytes[k]);
    }
    assert value == unsigned;
  }
}
