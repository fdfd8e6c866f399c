/**
 * The wire side of the arbiter: which request a lock or status call sends to a
 * device, the shapes of the replies a device (or the network) can give, and how
 * a reply turns into success or an error text.  The network itself is an oracle:
 * a function from the call to its reply.
 */
module Protocol {

  import opened Wrappers

  /** The text of a Go `error`.  Every error the arbiter records is non-empty. */
  type ErrText = s: string | s != "" witness "error"

  /** The two lock conventions: POST/DELETE without a body, or POST with a JSON body. */
  datatype Adapter = UsbOverI2S | UsbAudio

  datatype Verb = POST | DELETE

  datatype Request = Request(verb: Verb, url: string, contentType: string, body: string)

  const LockPath := "/api/v1/lock"

  /** The lock convention for a service: "usboveri2s" uses its own; "usbaudio" and every other name the JSON one. */
  function LockAdapter(name: string): (a: Adapter)
    ensures a == UsbOverI2S <==> name == "usboveri2s"
  {
    if name == "usboveri2s" then UsbOverI2S
    else if name == "usbaudio" then UsbAudio
    else UsbAudio
  }

  /** The JSON encoding of `{"locked": lock}`. */
  function LockedJson(lock: bool): string
  {
    "{\"locked\":" + (if lock then "true" else "false") + "}"
  }

  /** The request a lock (lock == true) or unlock (lock == false) call sends. */
  function LockRequest(name: string, baseUrl: string, lock: bool): (req: Request)
    ensures req.url == baseUrl + LockPath
    ensures LockAdapter(name) == UsbOverI2S ==>
      req.verb == (if lock then POST else DELETE) && req.body == "" && req.contentType == ""
    ensures LockAdapter(name) == UsbAudio ==>
      req.verb == POST && req.body == LockedJson(lock) && req.contentType == "application/json"
  {
    match LockAdapter(name)
    case UsbOverI2S => Request(if lock then POST else DELETE, baseUrl + LockPath, "", "")
    case UsbAudio => Request(POST, baseUrl + LockPath, "application/json", LockedJson(lock))
  }

  /** A device can always tell a lock request from an unlock request, under either convention. */
  lemma LockRequestsDiffer(name: string, baseUrl: string)
    ensures LockRequest(name, baseUrl, true) != LockRequest(name, baseUrl, false)
  {
    if LockAdapter(name) == UsbAudio {
      var t, f := LockedJson(true), LockedJson(false);
      assert t[10] == 't' && f[10] == 'f';
    }
  }

  /** The status endpoint: "usboveri2s" has the player path, every other service the plain one. */
  function StatusPath(name: string): (path: string)
    ensures name == "usboveri2s" ==> path == "/api/v1/player/status"
    ensures name != "usboveri2s" ==> path == "/api/v1/status"
  {
    if name == "usboveri2s" then "/api/v1/player/status" else "/api/v1/status"
  }

  /** What a lock call can come back with: a transport error (timeout, refused connection,
      malformed URL), or an HTTP response with its status code and body text. */
  datatype LockReply = Unreachable(text: ErrText) | Answered(code: nat, body: string)

  datatype LockResult = LockOk | LockFailed(text: ErrText)

  /** Status 200 is success; anything else fails with the response body as the detail. */
  function LockResultOf(reply: LockReply): (r: LockResult)
    ensures r.LockOk? <==> reply.Answered? && reply.code == 200
    ensures reply.Unreachable? ==> r == LockFailed(reply.text)
    ensures reply.Answered? && reply.code != 200 ==>
      r == LockFailed("lock request failed: " + reply.body)
  {
    match reply
    case Unreachable(text) => LockFailed(text)
    case Answered(code, body) =>
      if code == 200 then LockOk else LockFailed("lock request failed: " + body)
  }

  /** A decoded JSON value, as far as the status rules look into it. */
  datatype JVal = JBool(b: bool) | JString(s: string) | JObject(fields: map<string, JVal>) | JOther

  /** A decoded JSON object. */
  type Doc = map<string, JVal>

  /** The body of a 200 status response: unreadable, not a JSON object, or decoded. */
  datatype Body = ReadFailed(text: ErrText) | Undecodable(text: ErrText) | Decoded(doc: Doc)

  /** What a status call can come back with. */
  datatype StatusReply = GetFailed(text: ErrText) | StatusAnswered(code: nat, body: Body)

  /** A field read with a Go type assertion `v, ok := m[key].(bool)`. */
  function BoolField(m: Doc, key: string): Option<bool>
  {
    if key in m && m[key].JBool? then Some(m[key].b) else None
  }

  /** A field read with a Go type assertion `v, ok := m[key].(string)`. */
  function StringField(m: Doc, key: string): Option<string>
  {
    if key in m && m[key].JString? then Some(m[key].s) else None
  }

  /** The object whose fields the status rules read: `data` when it is an object, else the whole document. */
  function Payload(doc: Doc): Doc
  {
    if "data" in doc && doc["data"].JObject? then doc["data"].fields else doc
  }

  /** Base-10 digits of a status code, as `%d` prints it. */
  function Decimal(n: nat): (s: string)
    ensures |s| >= 1
    ensures forall i | 0 <= i < |s| :: '0' <= s[i] <= '9'
    ensures DecimalValue(s) == n
    ensures s[0] == '0' ==> n == 0
    decreases n
  {
    if n < 10 then [Digit(n)] else Decimal(n / 10) + [Digit(n % 10)]
  }

  function Digit(d: nat): (c: char)
    requires d < 10
    ensures '0' <= c <= '9' && c as int - '0' as int == d
  {
    (d + '0' as int) as char
  }

  /** The number a string of decimal digits denotes: the inverse of Decimal. */
  function DecimalValue(s: string): nat
    requires forall i | 0 <= i < |s| :: '0' <= s[i] <= '9'
  {
    if s == [] then 0 else 10 * DecimalValue(s[..|s| - 1]) + (s[|s| - 1] as int - '0' as int)
  }
}
