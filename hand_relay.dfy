/**
 * The hand-keypoint relay service: `/upload` saves an image, extracts its
 * hand keypoints, forwards them to a remote classifier and translates the
 * sign id that comes back through a side-loaded table of Arabic sign names.
 *
 * The remote classifier is an oracle (`remote`: the reply to a feature
 * vector); so is image loading with landmark detection (`read`: the outcome
 * of loading the saved image and running the detector on it); the upload
 * folder is a set of names.
 */
module HandRelay {
  import opened Common
  import opened Decimal
  import opened Keypoints

  const Unknown := "Unknown"
  const ErrorSign := "Error"
  const ProcessedPrefix := "processed_"
  const NoFileProvided := "No file provided"
  const FailedToRead := "Failed to read image"

  /**
   * A JSON value the remote classifier can put in `predicted_sign`: a number
   * (integral or not), a boolean, a text, `null`, or an array or object.
   */
  datatype SignValue =
    | IntSign(n: int)
    | FloatSign(f: real)
    | BoolSign(b: bool)
    | TextSign(text: string)
    | NullSign
    | CompoundSign

  datatype ReplyBody =
    | NotJsonObject                              // `response.json().get` raises
    | JsonObject(predictedSign: Option<SignValue>)

  datatype RemoteReply =
    | RequestFailed                              // `requests.post` raises
    | Reply(status: int, body: ReplyBody)

  /** One row of the sign table: `SignID` and `Sign-Arabic`. */
  datatype SignRow = SignRow(signId: int, signArabic: string)

  /**
   * `send_to_model` after the request: a 200 reply carrying a JSON object
   * passes its `predicted_sign` through, "Unknown" when the key is missing;
   * every other outcome is "Error".
   */
  function SignFromReply(reply: RemoteReply): (r: SignValue)
    ensures !(reply.Reply? && reply.status == 200 && reply.body.JsonObject?) ==> r == TextSign(ErrorSign)
    ensures reply.Reply? && reply.status == 200 && reply.body.JsonObject? ==>
              r == (if reply.body.predictedSign.Some? then reply.body.predictedSign.value else TextSign(Unknown))
  {
    match reply
    case RequestFailed => TextSign(ErrorSign)
    case Reply(status, body) =>
      if status != 200 then TextSign(ErrorSign)
      else match body
        case NotJsonObject => TextSign(ErrorSign)
        case JsonObject(sign) => if sign.Some? then sign.value else TextSign(Unknown)
  }

  /** The white space `int` skips around its digits; only its ASCII members are modelled. */
  predicate IsPySpace(c: char) {
    c == ' ' || '\t' <= c <= '\r'
  }

  function StripStart(s: string): (r: string)
    ensures |r| <= |s|
    ensures r != [] ==> !IsPySpace(r[0])
  {
    if s != [] && IsPySpace(s[0]) then StripStart(s[1..]) else s
  }

  function StripEnd(s: string): (r: string)
    ensures |r| <= |s|
    ensures r != [] ==> !IsPySpace(r[|r| - 1])
  {
    if s != [] && IsPySpace(s[|s| - 1]) then StripEnd(s[..|s| - 1]) else s
  }

  /** The text `int` reads: white space removed at both ends. */
  function Strip(s: string): string {
    StripEnd(StripStart(s))
  }

  /**
   * The digits of a Python integer literal: digits, possibly grouped by
   * single underscores between them (`1_000`).
   */
  predicate GroupedDigits(s: string) {
    && s != [] && IsDigit(s[0]) && IsDigit(s[|s| - 1])
    && (forall i :: 0 <= i < |s| ==> IsDigit(s[i]) || s[i] == '_')
    && forall i :: 0 <= i < |s| - 1 ==> s[i] == '_' ==> s[i + 1] != '_'
  }

  /** A Python integer literal: an optional sign, then grouped digits. */
  predicate IntLiteral(s: string) {
    GroupedDigits(s) || (s != [] && (s[0] == '-' || s[0] == '+') && GroupedDigits(s[1..]))
  }

  function DropUnderscores(s: string): (r: string)
    requires forall i :: 0 <= i < |s| ==> IsDigit(s[i]) || s[i] == '_'
    ensures AllDigits(r)
  {
    if s == [] then []
    else (if s[0] == '_' then [] else [s[0]]) + DropUnderscores(s[1..])
  }

  /**
   * `int(text)`: surrounding white space is ignored, then an optional sign and
   * the decimal digits; `None` is the `ValueError` raised otherwise.
   */
  function IntOfText(t: string): (r: Option<int>)
    ensures r.Some? <==> IntLiteral(Strip(t))
    ensures r.Some? && Strip(t)[0] == '-' ==> r.value <= 0
    ensures r.Some? && Strip(t)[0] != '-' ==> r.value >= 0
  {
    var s := Strip(t);
    if s != [] && s[0] == '-' then
      match UnsignedOfText(s[1..])
      case Some(m) => Some(-m)
      case None => None
    else if s != [] && s[0] == '+' then UnsignedOfText(s[1..])
    else UnsignedOfText(s)
  }

  function UnsignedOfText(body: string): (r: Option<int>)
    ensures r.Some? <==> GroupedDigits(body)
    ensures r.Some? ==> r.value >= 0
  {
    if GroupedDigits(body) then Some(DigitsValue(DropUnderscores(body))) else None
  }

  /** `int(x)` for a float truncates towards zero. */
  function Truncate(f: real): (n: int)
    ensures f >= 0.0 ==> n as real <= f < n as real + 1.0
    ensures f < 0.0 ==> n as real - 1.0 < f <= n as real
  {
    if f >= 0.0 then f.Floor else -((-f).Floor)
  }

  /** The outcome of `int(predicted_sign)`. */
  datatype Conversion =
    | Converted(n: int)
    | ValueErrorRaised     // caught by `get_sign_arabic`
    | TypeErrorRaised      // not caught: the request fails

  function ToSignInt(v: SignValue): (r: Conversion)
    ensures r.TypeErrorRaised? <==> v.NullSign? || v.CompoundSign?
    ensures r.ValueErrorRaised? <==> v.TextSign? && !IntLiteral(Strip(v.text))
    ensures v.IntSign? ==> r == Converted(v.n)
    ensures v.FloatSign? ==> r == Converted(Truncate(v.f))
    ensures v.BoolSign? ==> r == Converted(if v.b then 1 else 0)
    ensures v.TextSign? && r.Converted? ==> IntOfText(v.text) == Some(r.n)
  {
    match v
    case IntSign(n) => Converted(n)
    case FloatSign(f) => Converted(Truncate(f))
    case BoolSign(b) => Converted(if b then 1 else 0)
    case TextSign(t) => if IntOfText(t).Some? then Converted(IntOfText(t).value) else ValueErrorRaised
    case NullSign => TypeErrorRaised
    case CompoundSign => TypeErrorRaised
  }

  /** The first row at or after `from` whose id is `id`. */
  function FirstRowFrom(table: seq<SignRow>, id: int, from: nat): (r: Option<string>)
    requires from <= |table|
    ensures r.None? <==> forall i :: from <= i < |table| ==> table[i].signId != id
    ensures r.Some? ==> exists i :: from <= i < |table| && table[i].signId == id && table[i].signArabic == r.value
                          && forall j :: from <= j < i ==> table[j].signId != id
    decreases |table| - from
  {
    if from == |table| then None
    else if table[from].signId == id then Some(table[from].signArabic)
    else FirstRowFrom(table, id, from + 1)
  }

  /**
   * `get_sign_arabic`: the Arabic name of the first row whose id equals the
   * converted sign, "Unknown" when the sign is text that is not an integer or
   * no row matches; `None` when the conversion raises a `TypeError`, which
   * escapes the function.
   */
  function GetSignArabic(table: seq<SignRow>, sign: SignValue): (r: Option<string>)
    ensures r.None? <==> ToSignInt(sign).TypeErrorRaised?
    ensures ToSignInt(sign).ValueErrorRaised? ==> r == Some(Unknown)
    ensures ToSignInt(sign).Converted? ==>
              (forall i :: 0 <= i < |table| ==> table[i].signId != ToSignInt(sign).n) ==> r == Some(Unknown)
    ensures forall i :: 0 <= i < |table| && ToSignInt(sign) == Converted(table[i].signId)
              && (forall j :: 0 <= j < i ==> table[j].signId != table[i].signId)
              ==> r == Some(table[i].signArabic)
  {
    match ToSignInt(sign)
    case TypeErrorRaised => None
    case ValueErrorRaised => Some(Unknown)
    case Converted(id) =>
      var row := FirstRowFrom(table, id, 0);
      if row.Some? then row else Some(Unknown)
  }

  lemma {:induction false} DropNoUnderscores(s: string)
    requires AllDigits(s)
    ensures DropUnderscores(s) == s
  {
    if s != [] {
      DropNoUnderscores(s[1..]);
    }
  }

  /** `int` reads back the decimal rendering of any integer. */
  lemma IntOfShowInt(n: int)
    ensures IntOfText(ShowInt(n)) == Some(n)
  {
    var m: nat := if n < 0 then -n else n;
    var digits := ShowNat(m);
    var t := ShowInt(n);
    StripOfShowInt(n);
    UnsignedOfDigits(digits);
    ShowNatValue(m);
    if n < 0 {
      assert t[1..] == digits;
    } else {
      assert IsDigit(t[0]);
    }
  }

  lemma StripOfShowInt(n: int)
    ensures Strip(ShowInt(n)) == ShowInt(n)
  {
    var t := ShowInt(n);
    var digits := ShowNat(if n < 0 then -n else n);
    assert t[|t| - 1] == digits[|digits| - 1];
    assert !IsPySpace(t[0]);
    assert [] + t == t && t + [] == t;
    StripStartSpaces([], t);
    StripEndSpaces(t, []);
  }

  lemma UnsignedOfDigits(digits: string)
    requires digits != [] && AllDigits(digits)
    ensures UnsignedOfText(digits) == Some(DigitsValue(digits))
  {
    DropNoUnderscores(digits);
  }

  lemma {:induction false} StripStartSpaces(pre: string, t: string)
    requires forall i :: 0 <= i < |pre| ==> IsPySpace(pre[i])
    requires t != [] && !IsPySpace(t[0])
    ensures StripStart(pre + t) == t
  {
    if pre == [] {
      assert pre + t == t;
    } else {
      assert (pre + t)[1..] == pre[1..] + t;
      StripStartSpaces(pre[1..], t);
    }
  }

  lemma {:induction false} StripEndSpaces(t: string, post: string)
    requires forall i :: 0 <= i < |post| ==> IsPySpace(post[i])
    requires t != [] && !IsPySpace(t[|t| - 1])
    ensures StripEnd(t + post) == t
  {
    if post == [] {
      assert t + post == t;
    } else {
      var init := post[..|post| - 1];
      assert (t + post)[..|t + post| - 1] == t + init;
      StripEndSpaces(t, init);
    }
  }

  /** A file-separator control character is not white space to `int`, even though `str.strip` removes it. */
  lemma SeparatorIsNotSpace()
    ensures IntOfText("\U{1C}5") == None
  {
    assert Strip("\U{1C}5") == "\U{1C}5";
  }

  /** White space around the text does not change what `int` reads. */
  lemma IntOfTextIgnoresSpace(pre: string, t: string, post: string)
    requires forall i :: 0 <= i < |pre| ==> IsPySpace(pre[i])
    requires forall i :: 0 <= i < |post| ==> IsPySpace(post[i])
    requires t != [] && !IsPySpace(t[0]) && !IsPySpace(t[|t| - 1])
    ensures IntOfText(pre + t + post) == IntOfText(t)
  {
    assert pre + t + post == pre + (t + post);
    StripStartSpaces(pre, t + post);
    StripEndSpaces(t, post);
    assert Strip(t) == t;
  }

  /** The sentinels `send_to_model` returns are not integers, so they map to "Unknown". */
  lemma SentinelsMapToUnknown(table: seq<SignRow>)
    ensures GetSignArabic(table, TextSign(ErrorSign)) == Some(Unknown)
    ensures GetSignArabic(table, TextSign(Unknown)) == Some(Unknown)
  {
    assert Strip(ErrorSign) == ErrorSign;
    assert Strip(Unknown) == Unknown;
  }

  /** A failed or non-200 remote call always ends in the Arabic name "Unknown". */
  lemma FailedCallIsUnknown(table: seq<SignRow>, reply: RemoteReply)
    requires reply.RequestFailed? || reply.status != 200 || reply.body.NotJsonObject?
    ensures SignFromReply(reply) == TextSign(ErrorSign)
    ensures GetSignArabic(table, SignFromReply(reply)) == Some(Unknown)
  {
    SentinelsMapToUnknown(table);
  }

  /** A 200 reply without `predicted_sign` gives the sign "Unknown" and the Arabic name "Unknown". */
  lemma MissingSignIsUnknown(table: seq<SignRow>)
    ensures SignFromReply(Reply(200, JsonObject(None))) == TextSign(Unknown)
    ensures GetSignArabic(table, SignFromReply(Reply(200, JsonObject(None)))) == Some(Unknown)
  {
    SentinelsMapToUnknown(table);
  }

  /** A sign id sent as decimal text is looked up as the number it denotes. */
  lemma DecimalTextLooksUpAsNumber(table: seq<SignRow>, n: int)
    ensures GetSignArabic(table, TextSign(ShowInt(n))) == GetSignArabic(table, IntSign(n))
  {
    IntOfShowInt(n);
  }

  /** What the client sent: a multipart request with or without a `file` part. */
  datatype UploadRequest = NoFilePart | FilePart(filename: string)

  datatype RelayResponse =
    | Failure(status: nat, error: string)       // 400 with an error message
    | NoHands                                   // 200 "No hands detected!"
    | Recognised(predictedSign: SignValue, signArabic: string, keypoints: seq<real>)  // 200
    | InternalError                             // 500: an exception escaped the handler

  /** An image in which no hand is detected is answered "No hands detected!". */
  lemma NoDetectedHandIsNoHands(d: Detection)
    requires d.leftHand.None? && d.rightHand.None?
    ensures AllZero(ExtractKeypoints(d))
  {
    AllZeroIffSilent(d);
  }

  /** The `upload` folder the handler writes into. */
  class UploadFolder {
    var files: set<string>

    constructor (files0: set<string>)
      ensures files == files0
    {
      files := files0;
    }

    /**
     * The `/upload` route. `posted` is the feature vector sent to the remote
     * classifier, `None` when no request is made. An empty file name makes
     * the save path the upload folder itself, so saving raises and nothing
     * is written.
     */
    method ProcessImage(req: UploadRequest, read: string -> ImageOutcome,
                        remote: seq<real> -> RemoteReply, table: seq<SignRow>)
      returns (resp: RelayResponse, posted: Option<seq<real>>)
      modifies this
      ensures req.NoFilePart? ==>
                resp == Failure(400, NoFileProvided) && posted == None && files == old(files)
      ensures req.FilePart? && req.filename == "" ==>
                resp == InternalError && posted == None && files == old(files)
      ensures req.FilePart? && req.filename != "" && read(req.filename).Unreadable? ==>
                && resp == Failure(400, FailedToRead) && posted == None
                && files == old(files) + {req.filename}
      ensures req.FilePart? && req.filename != "" && read(req.filename).DetectorFailed? ==>
                && resp == InternalError && posted == None
                && files == old(files) + {req.filename}
      ensures req.FilePart? && req.filename != "" && read(req.filename).Detected? ==>
                var kp := ExtractKeypoints(read(req.filename).detection);
                var sign := SignFromReply(remote(kp));
                && files == old(files) + {req.filename, ProcessedPrefix + req.filename}
                && (AllZero(kp) ==> resp == NoHands && posted == None)
                && (!AllZero(kp) ==> posted == Some(kp))
                && (!AllZero(kp) && GetSignArabic(table, sign).Some? ==>
                      resp == Recognised(sign, GetSignArabic(table, sign).value, kp))
                && (!AllZero(kp) && GetSignArabic(table, sign).None? ==> resp == InternalError)
    {
      posted := None;
      if req.NoFilePart? {
        resp := Failure(400, NoFileProvided);
        return;
      }
      var name := req.filename;
      if name == "" {
        resp := InternalError;
        return;
      }
      files := files + {name};
      var image := read(name);
      if image.Unreadable? {
        resp := Failure(400, FailedToRead);
        return;
      }
      if image.DetectorFailed? {
        resp := InternalError;
        return;
      }
      var keypoints := ExtractKeypoints(image.detection);
      files := files + {ProcessedPrefix + name};
      if AllZero(keypoints) {
        resp := NoHands;
        return;
      }
      posted := Some(keypoints);
      var predicted := SignFromReply(remote(keypoints));
      var arabic := GetSignArabic(table, predicted);
      if arabic.None? {
        resp := InternalError;
        return;
      }
      resp := Recognised(predicted, arabic.value, keypoints);
    }
  }
}
