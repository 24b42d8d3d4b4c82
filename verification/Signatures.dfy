/** Author and committer signatures: printed by `commit.rs`, parsed by `commit_meta.rs`. */
module Signatures {
  import opened Common
  import opened ObjectText
  import opened Utf8

  const LESS_THAN: byte := 60
  const GREATER_THAN: byte := 62

  /** Strings are their UTF-8 bytes; all the delimiters are ASCII. */
  datatype Signature = Signature(name: Bytes, email: Bytes, timestamp: i64, timezone: Bytes)

  /** `validate_signature_field`; as a string, a field is UTF-8. */
  predicate ValidField(value: Bytes)
  {
    ValidUtf8(value) && value != [] && LF !in value && LESS_THAN !in value && GREATER_THAN !in value
  }

  /** `validate_timezone`. */
  predicate ValidTimezone(value: Bytes)
  {
    |value| == 5 && (value[0] == PLUS || value[0] == MINUS) && AllDigits(value[1..])
  }

  predicate ValidSignature(s: Signature)
  {
    ValidField(s.name) && ValidField(s.email) && ValidTimezone(s.timezone)
  }

  /** `Signature::new`. */
  function NewSignature(name: Bytes, email: Bytes, timestamp: i64, timezone: Bytes): (r: Result<Signature>)
    ensures r.Ok? ==> ValidSignature(r.value)
  {
    if ValidField(name) && ValidField(email) && ValidTimezone(timezone)
    then Ok(Signature(name, email, timestamp, timezone)) else Err(InvalidInput)
  }

  function SignatureText(s: Signature): Bytes
  {
    s.name + [SPACE, LESS_THAN] + s.email + [GREATER_THAN, SPACE] + DecimalI64(s.timestamp) + [SPACE] + s.timezone
  }

  /** `Signature::write_to`. */
  method WriteTo(s: Signature, out: Bytes) returns (out': Bytes)
    ensures out' == out + SignatureText(s)
  {
    out' := out + s.name + [SPACE, LESS_THAN] + s.email + [GREATER_THAN, SPACE];
    out' := WriteDecimalI64(out', s.timestamp);
    out' := out' + [SPACE] + s.timezone;
  }

  /** `rsplit_once` at one byte: where the last `b` is. */
  function LastIndexOf(s: Bytes, b: byte): (k: Option<nat>)
    ensures k.None? ==> b !in s
    ensures k.Some? ==> k.value < |s| && s[k.value] == b && forall j :: k.value < j < |s| ==> s[j] != b
  {
    if s == [] then None
    else if s[|s| - 1] == b then Some(|s| - 1)
    else LastIndexOf(s[..|s| - 1], b)
  }

  /** `rsplit_once(" <")`. */
  function LastAngle(s: Bytes): (k: Option<nat>)
    ensures k.Some? ==> k.value + 2 <= |s| && s[k.value] == SPACE && s[k.value + 1] == LESS_THAN
  {
    if |s| < 2 then None
    else if s[|s| - 2] == SPACE && s[|s| - 1] == LESS_THAN then Some(|s| - 2)
    else LastAngle(s[..|s| - 1])
  }

  /** `signature_from_commit_bytes`; `InvalidData` is the command line's fatal error. */
  function ParseSignature(s: Bytes): (r: Result<Signature>)
    ensures r.Ok? ==> ValidSignature(r.value)
  {
    if !ValidUtf8(s) then Err(InvalidData) else
    var zoneAt := LastIndexOf(s, SPACE);
    if zoneAt.None? then Err(InvalidData) else
    var prefix, timezone := s[..zoneAt.value], s[zoneAt.value + 1..];
    var timeAt := LastIndexOf(prefix, SPACE);
    if timeAt.None? then Err(InvalidData) else
    var identity, timestamp := prefix[..timeAt.value], prefix[timeAt.value + 1..];
    var angle := LastAngle(identity);
    if angle.None? || identity[|identity| - 1] != GREATER_THAN then Err(InvalidData) else
    var name, email := identity[..angle.value], identity[angle.value + 2..|identity| - 1];
    var time := ParseI64(timestamp);
    if time.None? then Err(InvalidData) else NewSignature(name, email, time.value, timezone)
  }

  lemma {:induction false} LastAngleUnique(name: Bytes, email: Bytes)
    requires LESS_THAN !in email
    ensures LastAngle(name + [SPACE, LESS_THAN] + email) == Some(|name|)
  {
    var s := name + [SPACE, LESS_THAN] + email;
    if email != [] {
      assert s[..|s| - 1] == name + [SPACE, LESS_THAN] + email[..|email| - 1];
      assert s[|s| - 1] == email[|email| - 1];
      LastAngleUnique(name, email[..|email| - 1]);
    }
  }

  lemma {:induction false} DecimalHasNoSpace(v: int)
    ensures SPACE !in DecimalI64(v) && DecimalI64(v) != []
  {
  }

  lemma {:induction false} SignatureParts(s: Signature)
    ensures var prefix := s.name + [SPACE, LESS_THAN] + s.email + [GREATER_THAN] + [SPACE] + DecimalI64(s.timestamp);
            SignatureText(s) == prefix + [SPACE] + s.timezone
  {
    hide DecimalI64;
    var identity := s.name + [SPACE, LESS_THAN] + s.email;
    assert identity + [GREATER_THAN, SPACE] == identity + [GREATER_THAN] + [SPACE];
  }

  lemma {:induction false} CutLast(prefix: Bytes, suffix: Bytes)
    requires SPACE !in suffix
    ensures var s := prefix + [SPACE] + suffix;
            LastIndexOf(s, SPACE) == Some(|prefix|) && s[..|prefix|] == prefix && s[|prefix| + 1..] == suffix
  {
    var s := prefix + [SPACE] + suffix;
    assert s[|prefix| + 1..] == suffix;
    assert forall j :: |prefix| < j < |s| ==> s[j] == suffix[j - |prefix| - 1];
    assert s[|prefix|] == SPACE;
  }

  lemma {:induction false} CutIdentity(name: Bytes, email: Bytes)
    requires LESS_THAN !in email
    ensures var s := name + [SPACE, LESS_THAN] + email + [GREATER_THAN];
            && LastAngle(s) == Some(|name|) && s[|s| - 1] == GREATER_THAN
            && s[..|name|] == name && s[|name| + 2..|s| - 1] == email
  {
    var s := name + [SPACE, LESS_THAN] + email + [GREATER_THAN];
    assert s == name + [SPACE, LESS_THAN] + (email + [GREATER_THAN]);
    LastAngleUnique(name, email + [GREATER_THAN]);
  }

  lemma {:induction false} DecimalHasNoLineFeed(v: int)
    ensures LF !in DecimalI64(v)
  {
  }

  lemma {:induction false} SignatureIsOneLine(s: Signature)
    requires ValidSignature(s)
    ensures LF !in SignatureText(s) && SignatureText(s) != []
  {
    hide DecimalI64;
    DecimalHasNoLineFeed(s.timestamp);
    assert forall i :: 0 < i < 5 ==> s.timezone[i] == s.timezone[1..][i - 1];
  }

  lemma {:induction false} TimezoneHasNoSpace(zone: Bytes)
    requires ValidTimezone(zone)
    ensures SPACE !in zone
  {
    assert forall i :: 0 < i < 5 ==> zone[i] == zone[1..][i - 1];
  }

  lemma {:induction false} SignatureIsUtf8(s: Signature)
    requires ValidSignature(s)
    ensures ValidUtf8(SignatureText(s))
  {
    hide ValidUtf8, DecimalI64;
    var end := [GREATER_THAN, SPACE] + DecimalI64(s.timestamp) + [SPACE] + s.timezone;
    DecimalIsAscii(s.timestamp);
    assert forall i :: 0 < i < 5 ==> s.timezone[i] == s.timezone[1..][i - 1];
    AsciiIsValid(end);
    AsciiIsValid([SPACE, LESS_THAN]);
    ConcatValid(s.name, [SPACE, LESS_THAN]);
    ConcatValid(s.name + [SPACE, LESS_THAN], s.email);
    ConcatValid(s.name + [SPACE, LESS_THAN] + s.email, end);
    assert s.name + [SPACE, LESS_THAN] + s.email + end == SignatureText(s);
  }

  lemma {:induction false} DecimalIsAscii(v: int)
    ensures AllAscii(DecimalI64(v))
  {
  }

  /** Every signature that `Signature::new` accepts is read back from its printed form. */
  lemma {:induction false} SignatureRoundTrip(s: Signature)
    requires ValidSignature(s)
    ensures ParseSignature(SignatureText(s)) == Ok(s)
  {
    hide LastIndexOf, LastAngle, DecimalI64, ParseI64, SignatureText, ValidTimezone, AllDigits, ValidUtf8;
    SignatureIsUtf8(s);
    var identity := s.name + [SPACE, LESS_THAN] + s.email + [GREATER_THAN];
    var prefix := identity + [SPACE] + DecimalI64(s.timestamp);
    SignatureParts(s);
    TimezoneHasNoSpace(s.timezone);
    CutLast(prefix, s.timezone);
    DecimalHasNoSpace(s.timestamp);
    CutLast(identity, DecimalI64(s.timestamp));
    CutIdentity(s.name, s.email);
    I64RoundTrip(s.timestamp);
  }

  // ---- The accessors -----------------------------------------------------------------------

  /** `windows(2).position(|w| w == b" <")`. */
  function FirstAngle(s: Bytes): (k: Option<nat>)
    ensures k.Some? ==> k.value + 2 <= |s|
  {
    if |s| < 2 then None
    else if s[0] == 32 && s[1] == 60 then Some(0)
    else
      var k := FirstAngle(s[1..]);
      if k.None? then None else Some(k.value + 1)
  }

  /** `signature_name`: everything in front of the first ` <`. */
  function SignatureName(s: Bytes): Bytes
  {
    if FirstAngle(s).None? then s else s[..FirstAngle(s).value]
  }

  /** `signature_email`: what follows it, up to the next `>`. */
  function SignatureEmail(s: Bytes): Bytes
  {
    if FirstAngle(s).None? then []
    else
      var rest := s[FirstAngle(s).value + 2..];
      rest[..IndexOf(rest, 62)]
  }

  /** `signature_timestamp`: the last field but one. */
  function SignatureTimestamp(s: Bytes): Option<i64>
  {
    var last := LastIndexOf(s, 32);
    if last.None? then None else
    var front := s[..last.value];
    var k := LastIndexOf(front, 32);
    ParseI64(if k.None? then front else front[k.value + 1..])
  }

  lemma {:induction false} FirstAngleBehind(name: Bytes, rest: Bytes)
    requires 60 !in name
    ensures FirstAngle(name + [32, 60] + rest) == Some(|name|)
  {
    var s := name + [32, 60] + rest;
    if name != [] {
      assert s[1..] == name[1..] + [32, 60] + rest && s[0] == name[0];
      assert s[1] == if |name| == 1 then 32 else name[1];
      FirstAngleBehind(name[1..], rest);
    }
  }

  /** A printed signature shows its name, its mail address and its time to the accessors. */
  lemma {:induction false} AccessorsAgree(s: Signature)
    requires ValidSignature(s)
    ensures SignatureName(SignatureText(s)) == s.name && SignatureEmail(SignatureText(s)) == s.email
    ensures SignatureTimestamp(SignatureText(s)) == Some(s.timestamp)
  {
    hide FirstAngle, LastIndexOf, DecimalI64, ParseI64, IndexOf, ValidUtf8, ValidTimezone, AllDigits;
    var text, time := SignatureText(s), DecimalI64(s.timestamp);
    var tail := [32] + time + [32] + s.timezone;
    assert text == s.name + [32, 60] + (s.email + [62] + tail);
    FirstAngleBehind(s.name, s.email + [62] + tail);
    assert text[|s.name| + 2..] == s.email + [62] + tail && text[..|s.name|] == s.name;
    IndexOfFirst(s.email, 62, tail);
    assert (s.email + [62] + tail)[..|s.email|] == s.email;
    var identity := s.name + [SPACE, LESS_THAN] + s.email + [GREATER_THAN];
    SignatureParts(s);
    TimezoneHasNoSpace(s.timezone);
    CutLast(identity + [SPACE] + time, s.timezone);
    DecimalHasNoSpace(s.timestamp);
    CutLast(identity, time);
    I64RoundTrip(s.timestamp);
  }

  /**
   * A signature is refused if one of its names is empty, is no text or has a line feed or an angle bracket, or if its
   * zone is not a sign with four digits.
   */
  lemma {:induction false} RefusedSignatures(name: Bytes, email: Bytes, timestamp: i64, zone: Bytes)
    ensures NewSignature(name, email, timestamp, zone).Err? <==>
            || name == [] || email == [] || !ValidUtf8(name) || !ValidUtf8(email) || |zone| != 5
            || (exists b :: (b in name || b in email) && (b == 10 || b == 60 || b == 62))
            || (zone[0] != 43 && zone[0] != 45) || (exists i :: 1 <= i < 5 && !(48 <= zone[i] <= 57))
  {
    hide ValidUtf8;
    if |zone| == 5 { assert forall i :: 1 <= i < 5 ==> zone[i] == zone[1..][i - 1]; }
  }

  // ---- What the parser accepts -------------------------------------------------------------

  /** `name <email> time zone`, with whatever spelling of the time. */
  function SignatureWith(s: Signature, time: Bytes): Bytes
  {
    s.name + [32, 60] + s.email + [62] + [32] + time + [32] + s.timezone
  }

  /** The parser accepts exactly such texts, and gives the fields that stand in them. */
  lemma {:induction false} ParsedSignature(text: Bytes, s: Signature)
    ensures ParseSignature(text) == Ok(s) <==>
            && ValidUtf8(text) && ValidSignature(s)
            && exists time :: text == SignatureWith(s, time) && ParseI64(time) == Some(s.timestamp)
  {
    hide ParseI64, ValidUtf8, ParseSignature, ValidSignature, SignatureWith;
    if ParseSignature(text) == Ok(s) {
      var time := FieldsOf(text, s);
    }
    if ValidUtf8(text) && ValidSignature(s) {
      if time :| text == SignatureWith(s, time) && ParseI64(time) == Some(s.timestamp) {
        FieldsFound(text, s, time);
      }
    }
  }

  lemma {:induction false} FieldsOf(text: Bytes, s: Signature) returns (time: Bytes)
    requires ParseSignature(text) == Ok(s)
    ensures ValidUtf8(text) && ValidSignature(s)
    ensures text == SignatureWith(s, time) && ParseI64(time) == Some(s.timestamp)
  {
    hide ParseI64, ValidUtf8, LastIndexOf, LastAngle, ValidField, ValidTimezone;
    var zoneAt := LastIndexOf(text, SPACE).value;
    var prefix := text[..zoneAt];
    var timeAt := LastIndexOf(prefix, SPACE).value;
    var identity := prefix[..timeAt];
    time := prefix[timeAt + 1..];
    CutAt(text, zoneAt);
    CutAt(prefix, timeAt);
    IdentityIs(identity, LastAngle(identity).value);
  }

  lemma {:induction false} CutAt(s: Bytes, k: nat)
    requires k < |s| && s[k] == SPACE
    ensures s == s[..k] + [32] + s[k + 1..]
  {
  }

  lemma {:induction false} IdentityIs(s: Bytes, k: nat)
    requires k + 2 <= |s| && s[k] == SPACE && s[k + 1] == LESS_THAN && s[|s| - 1] == GREATER_THAN
    ensures k + 2 <= |s| - 1 && s == s[..k] + [32, 60] + s[k + 2..|s| - 1] + [62]
  {
  }

  lemma {:induction false} NumberHasNoSpace(time: Bytes, v: i64)
    requires ParseI64(time) == Some(v)
    ensures SPACE !in time
  {
  }

  lemma {:induction false} FieldsFound(text: Bytes, s: Signature, time: Bytes)
    requires ValidUtf8(text) && ValidSignature(s)
    requires text == SignatureWith(s, time) && ParseI64(time) == Some(s.timestamp)
    ensures ParseSignature(text) == Ok(s)
  {
    hide LastIndexOf, LastAngle, ParseI64, ValidTimezone, AllDigits, ValidUtf8;
    var identity := s.name + [SPACE, LESS_THAN] + s.email + [GREATER_THAN];
    var prefix := identity + [SPACE] + time;
    TimezoneHasNoSpace(s.timezone);
    assert text == prefix + [SPACE] + s.timezone;
    CutLast(prefix, s.timezone);
    NumberHasNoSpace(time, s.timestamp);
    CutLast(identity, time);
    CutIdentity(s.name, s.email);
  }
}
