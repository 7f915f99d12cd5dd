/** Server-side session strings (src/lib/session.ts): reading the session id
    out of a `Cookie` request header and formatting its `Set-Cookie` value.
    `NODE_ENV` is the parameter `nodeEnv`; `generateSessionId` is uuid's
    `v4` and is not part of this model. */
module Session {
  import opened Wrappers
  import opened Text

  const SessionCookieName: string := "yementuel_session"
  const SessionExpiryHours: nat := 24

  /** The cookie name starts with `y` and holds no whitespace at its start,
      no `=` and no `;`. */
  lemma {:induction false} NameFacts()
    ensures |SessionCookieName| == 17 && SessionCookieName[0] == 'y' && !IsWhitespace(SessionCookieName[0])
    ensures '=' !in SessionCookieName && ';' !in SessionCookieName
  {
  }

  // ---------------------------------------------------------------------
  // parsing a Cookie header

  /** `const [key, value] = cookie.trim().split('=')`: the text before the
      first `=` and, when there is one, the text up to the next `=`. */
  function ParseSegment(segment: string): (kv: (string, Option<string>))
    ensures '=' !in kv.0 && (kv.1.Some? ==> '=' !in kv.1.value)
  {
    var parts := Split(Trim(segment), "=");
    SplitPartsFree(Trim(segment), "=");
    FreeChar(parts[0], '=');
    if |parts| >= 2 then
      FreeChar(parts[1], '=');
      (parts[0], Some(parts[1]))
    else (parts[0], None)
  }

  /** Parsing a segment introduces no character it does not contain. */
  lemma {:induction false} ParseSegmentAvoids(segment: string, c: char)
    requires c !in segment
    ensures c !in ParseSegment(segment).0
    ensures ParseSegment(segment).1.Some? ==> c !in ParseSegment(segment).1.value
  {
    TrimCutsWhitespace(segment);
    var t := Trim(segment);
    assert forall x :: x in t ==> x in segment;
    SplitPartsAvoid(t, "=", c);
  }

  /** A leading space is cut by `trim` like any other. */
  lemma {:induction false} SpaceTrimmed(s: string)
    requires s != [] && !IsWhitespace(s[0])
    ensures Trim(" " + s) == Trim(s)
  {
    assert IsWhitespace(' ');
    assert (" " + s)[1..] == s;
    assert TrimStart(" " + s) == TrimStart(s);
  }

  /** A segment `key=rest`, with or without a leading space, parses into
      the key and the part of `rest` before its first `=`. */
  lemma {:induction false} KeyRestParse(key: string, rest: string)
    requires key != [] && !IsWhitespace(key[0])
    requires rest == [] || !IsWhitespace(rest[|rest| - 1])
    requires '=' !in key
    ensures ParseSegment(key + "=" + rest) == (key, Some(Split(rest, "=")[0]))
    ensures ParseSegment(" " + key + "=" + rest) == (key, Some(Split(rest, "=")[0]))
  {
    var s := key + "=" + rest;
    assert s[0] == key[0] && s[|s| - 1] == (if rest == [] then '=' else rest[|rest| - 1]);
    TrimKeeps(s);
    SpaceTrimmed(s);
    assert " " + key + "=" + rest == " " + s;
    assert s == key + ['='] + rest;
    SplitCharCons(key, '=', rest);
  }

  /** `key=value`, with no `=` in either and nothing `trim` would cut, parses
      into that key and value, with or without the space that follows a `;`. */
  lemma {:induction false} ParsePair(key: string, value: string)
    requires key != [] && !IsWhitespace(key[0])
    requires value == [] || !IsWhitespace(value[|value| - 1])
    requires '=' !in key && '=' !in value
    ensures ParseSegment(key + "=" + value) == (key, Some(value))
    ensures ParseSegment(" " + key + "=" + value) == (key, Some(value))
  {
    KeyRestParse(key, value);
    FreeChar(value, '=');
    SplitFree(value, "=");
  }

  /** With a second `=`, the value stops at it. */
  lemma {:induction false} ParseWithSecondEquals(key: string, v1: string, v2: string)
    requires key != [] && !IsWhitespace(key[0])
    requires v2 == [] || !IsWhitespace(v2[|v2| - 1])
    requires '=' !in key && '=' !in v1
    ensures ParseSegment(" " + key + "=" + (v1 + "=" + v2)) == (key, Some(v1))
  {
    var rest := v1 + "=" + v2;
    assert rest[|rest| - 1] == (if v2 == [] then '=' else v2[|v2| - 1]);
    KeyRestParse(key, rest);
    assert rest == v1 + ['='] + v2;
    SplitCharCons(v1, '=', v2);
  }

  /** A parsed segment: the key and, when the segment had `=`, the value. */
  type Pair = (string, Option<string>)

  /** Every segment parsed, in order. */
  function ParseAll(segments: seq<string>): (pairs: seq<Pair>)
    ensures |pairs| == |segments|
    ensures forall i :: 0 <= i < |segments| ==> pairs[i] == ParseSegment(segments[i])
  {
    seq(|segments|, i requires 0 <= i < |segments| => ParseSegment(segments[i]))
  }

  lemma {:induction false} ParseAllAppend(segments: seq<string>, segment: string)
    ensures ParseAll(segments + [segment]) == ParseAll(segments) + [ParseSegment(segment)]
  {
  }

  lemma {:induction false} ParseAllAppendFront(segment: string, segments: seq<string>)
    ensures ParseAll([segment] + segments) == [ParseSegment(segment)] + ParseAll(segments)
  {
  }

  /** What the `reduce` leaves under `name`: the value of the last pair
      whose key is `name` (`None` inside: the segment had no `=`), or `None`
      when no pair has that key. */
  function LastValue(pairs: seq<Pair>, name: string): (v: Option<Option<string>>)
    ensures v.None? <==> forall i :: 0 <= i < |pairs| ==> pairs[i].0 != name
  {
    if pairs == [] then None
    else
      var earlier := pairs[..|pairs| - 1];
      assert forall i :: 0 <= i < |earlier| ==> earlier[i] == pairs[i];
      if pairs[|pairs| - 1].0 == name then Some(pairs[|pairs| - 1].1) else LastValue(earlier, name)
  }

  /** The value found comes from a pair with that key. */
  lemma {:induction false} LastValueOrigin(pairs: seq<Pair>, name: string)
    requires LastValue(pairs, name).Some?
    ensures exists i :: 0 <= i < |pairs| && pairs[i] == (name, LastValue(pairs, name).value)
  {
    var earlier := pairs[..|pairs| - 1];
    if pairs[|pairs| - 1].0 != name {
      LastValueOrigin(earlier, name);
      var i :| 0 <= i < |earlier| && earlier[i] == (name, LastValue(earlier, name).value);
      assert earlier[i] == pairs[i];
    }
  }

  /** A later pair with the key overrides every earlier one. */
  lemma {:induction false} LastPairWins(pairs: seq<Pair>, pair: Pair, name: string)
    requires pair.0 == name
    ensures LastValue(pairs + [pair], name) == Some(pair.1)
  {
  }

  /** A pair for another key leaves the lookup as it was. */
  lemma {:induction false} OtherPairKeeps(pairs: seq<Pair>, pair: Pair, name: string)
    requires pair.0 != name
    ensures LastValue(pairs + [pair], name) == LastValue(pairs, name)
  {
    assert (pairs + [pair])[..|pairs|] == pairs;
  }

  /** `getSessionIdFromCookies(cookieHeader)`: null for a missing or empty
      header; otherwise the session cookie's value from the last segment
      naming it, null when that value is missing or empty. What comes back
      is a non-empty text without `=` or `;`. */
  function SessionIdOf(cookieHeader: Option<string>): (id: Option<string>)
    ensures cookieHeader.None? || cookieHeader == Some("") ==> id.None?
    ensures id.Some? ==> id.value != "" && '=' !in id.value && ';' !in id.value
  {
    if cookieHeader.None? || cookieHeader.value == "" then None
    else
      var segments := Split(cookieHeader.value, ";");
      var pairs := ParseAll(segments);
      match LastValue(pairs, SessionCookieName)
      case Some(Some(v)) =>
        if v == "" then None
        else
          LastValueOrigin(pairs, SessionCookieName);
          var i :| 0 <= i < |pairs| && pairs[i] == (SessionCookieName, Some(v));
          SplitPartsFree(cookieHeader.value, ";");
          FreeChar(segments[i], ';');
          ParseSegmentAvoids(segments[i], ';');
          Some(v)
      case _ => None
  }

  /** The lookup over a non-empty header, in terms of its pairs. */
  lemma {:induction false} SessionIdOfPairs(cookieHeader: string, v: Option<string>)
    requires cookieHeader != ""
    requires LastValue(ParseAll(Split(cookieHeader, ";")), SessionCookieName) == Some(v)
    ensures SessionIdOf(Some(cookieHeader)) == if v.Some? && v.value != "" then v else None
  {
  }

  /** The same, as the source computes it: one pass over the segments that
      records each key's value in a dictionary, later keys overwriting. */
  method GetSessionIdFromCookies(cookieHeader: Option<string>) returns (id: Option<string>)
    ensures id == SessionIdOf(cookieHeader)
  {
    if cookieHeader.None? || cookieHeader.value == "" {
      return None;
    }
    var segments := Split(cookieHeader.value, ";");
    ghost var pairs := ParseAll(segments);
    var cookies: map<string, Option<string>> := map[];
    var i := 0;
    while i < |segments|
      invariant 0 <= i <= |segments|
      invariant forall k :: k in cookies <==> LastValue(pairs[..i], k).Some?
      invariant forall k :: k in cookies ==> LastValue(pairs[..i], k) == Some(cookies[k])
    {
      var (key, value) := ParseSegment(segments[i]);
      assert pairs[..i + 1] == pairs[..i] + [(key, value)];
      forall k ensures LastValue(pairs[..i + 1], k) == if k == key then Some(value) else LastValue(pairs[..i], k) {
        if k == key {
          LastPairWins(pairs[..i], (key, value), k);
        } else {
          OtherPairKeeps(pairs[..i], (key, value), k);
        }
      }
      cookies := cookies[key := value];
      i := i + 1;
    }
    assert pairs[..i] == pairs;
    var value := if SessionCookieName in cookies then cookies[SessionCookieName] else None;
    id := if value.Some? && value.value != "" then value else None;
  }

  // ---------------------------------------------------------------------
  // the Set-Cookie value

  datatype CookieOptions = CookieOptions(maxAge: nat, httpOnly: bool, secure: bool, sameSite: string, path: string)

  /** `getSessionCookieOptions()`: a day in seconds, readable by scripts,
      `Secure` only in production, `lax`, the whole site. */
  function GetSessionCookieOptions(nodeEnv: Option<string>): (o: CookieOptions)
    ensures o.maxAge == SessionExpiryHours * 3600 == 86400
    ensures !o.httpOnly && (o.secure <==> nodeEnv == Some("production"))
    ensures o.sameSite == "lax" && o.path == "/"
  {
    CookieOptions(SessionExpiryHours * 60 * 60, false, nodeEnv == Some("production"), "lax", "/")
  }

  /** The attributes `formatSetCookieHeader` appends after the pair, each
      with the space that follows its `;`. */
  function Attributes(secure: bool): (attrs: seq<string>)
    ensures |attrs| == (if secure then 4 else 3)
  {
    if secure then [" Max-Age=86400", " Secure", " SameSite=lax", " Path=/"]
    else [" Max-Age=86400", " SameSite=lax", " Path=/"]
  }

  /** What follows the session pair in the header: each attribute after
      `; `. */
  function AttributeText(secure: bool): string
  {
    if secure then "; Max-Age=86400" + ("; Secure" + ("; SameSite=lax" + "; Path=/"))
    else "; Max-Age=86400" + ("; SameSite=lax" + "; Path=/")
  }

  /** The header value `formatSetCookieHeader` produces. */
  function SetCookieHeader(sessionId: string, secure: bool): string
  {
    SessionCookieName + "=" + sessionId + AttributeText(secure)
  }

  lemma {:induction false} MaxAgeText()
    ensures NatToString(86400) == "86400"
  {
    assert NatToString(8) == "8";
    assert NatToString(86) == "86";
    assert NatToString(864) == "864";
    assert NatToString(8640) == "8640";
  }

  /** `formatSetCookieHeader(sessionId)`, appending one attribute at a time
      for each option that is set. */
  method FormatSetCookieHeader(sessionId: string, nodeEnv: Option<string>) returns (cookieString: string)
    ensures cookieString == SetCookieHeader(sessionId, nodeEnv == Some("production"))
  {
    var options := GetSessionCookieOptions(nodeEnv);
    var pair := SessionCookieName + "=" + sessionId;
    cookieString := pair;
    if options.maxAge != 0 {
      cookieString := cookieString + "; Max-Age=" + NatToString(options.maxAge);
    }
    if options.httpOnly {
      cookieString := cookieString + "; HttpOnly";
    }
    if options.secure {
      cookieString := cookieString + "; Secure";
    }
    if options.sameSite != "" {
      cookieString := cookieString + "; SameSite=" + options.sameSite;
    }
    if options.path != "" {
      cookieString := cookieString + "; Path=" + options.path;
    }
    MaxAgeText();
    if options.secure {
      SecureAppendsSpellHeader(pair, NatToString(options.maxAge));
    } else {
      PlainAppendsSpellHeader(pair, NatToString(options.maxAge));
    }
  }

  /** The appends of `formatSetCookieHeader` in production spell the pair
      followed by the attribute text. */
  lemma {:induction false} SecureAppendsSpellHeader(pair: string, maxAge: string)
    requires maxAge == "86400"
    ensures pair + "; Max-Age=" + maxAge + "; Secure" + "; SameSite=" + "lax" + "; Path=" + "/"
      == pair + AttributeText(true)
  {
  }

  /** The appends of `formatSetCookieHeader` elsewhere spell the pair
      followed by the attribute text. */
  lemma {:induction false} PlainAppendsSpellHeader(pair: string, maxAge: string)
    requires maxAge == "86400"
    ensures pair + "; Max-Age=" + maxAge + "; SameSite=" + "lax" + "; Path=" + "/"
      == pair + AttributeText(false)
  {
  }

  /** In production the attribute text is the four attributes, each
      preceded by `;`. */
  lemma {:induction false} SecureAttributeTextIsJoin()
    ensures ";" + Join(Attributes(true), ";") == AttributeText(true)
  {
    JoinFourSpelled(" Max-Age=86400", " Secure", " SameSite=lax", " Path=/", ";",
                    "; Max-Age=86400", "; Secure", "; SameSite=lax", "; Path=/");
  }

  /** Elsewhere the attribute text is the three attributes, each preceded
      by `;`. */
  lemma {:induction false} PlainAttributeTextIsJoin()
    ensures ";" + Join(Attributes(false), ";") == AttributeText(false)
  {
    JoinThreeSpelled(" Max-Age=86400", " SameSite=lax", " Path=/", ";",
                     "; Max-Age=86400", "; SameSite=lax", "; Path=/");
  }

  /** The attribute text is the attributes, each preceded by `;`. */
  lemma {:induction false} AttributeTextIsJoin(secure: bool)
    ensures ";" + Join(Attributes(secure), ";") == AttributeText(secure)
  {
    if secure {
      SecureAttributeTextIsJoin();
    } else {
      PlainAttributeTextIsJoin();
    }
  }

  /** The header is the session pair and the attributes joined by `;`. */
  lemma {:induction false} SetCookieIsJoin(sessionId: string, secure: bool)
    ensures SetCookieHeader(sessionId, secure) == Join([SessionCookieName + "=" + sessionId] + Attributes(secure), ";")
  {
    AttributeTextIsJoin(secure);
    JoinPrefix(SessionCookieName + "=" + sessionId, Attributes(secure), ";");
  }

  /** No attribute contains `;`; `HttpOnly` is never among them, and
      `Secure` is exactly when asked for. */
  lemma {:induction false} AttributeFacts(secure: bool)
    ensures forall k :: 0 <= k < |Attributes(secure)| ==> ';' !in Attributes(secure)[k]
    ensures " HttpOnly" !in Attributes(secure)
    ensures " Secure" in Attributes(secure) <==> secure
  {
    var attrs := Attributes(secure);
    if secure {
      assert attrs[1] == " Secure";
    }
  }

  /** The segments of the header: the session pair first, then `Max-Age`,
      `Secure` exactly in production, `SameSite` and `Path`, and never
      `HttpOnly`. */
  lemma {:induction false} SetCookieSegments(sessionId: string, secure: bool)
    requires ';' !in sessionId
    ensures Split(SetCookieHeader(sessionId, secure), ";") == [SessionCookieName + "=" + sessionId] + Attributes(secure)
    ensures " HttpOnly" !in Split(SetCookieHeader(sessionId, secure), ";")
    ensures " Secure" in Split(SetCookieHeader(sessionId, secure), ";") <==> secure
  {
    var pair := SessionCookieName + "=" + sessionId;
    var parts := [pair] + Attributes(secure);
    AttributeFacts(secure);
    assert pair[0] == 'y';
    assert ';' !in pair;
    assert forall k :: 0 <= k < |parts| ==> ';' !in parts[k] by {
      forall k | 0 <= k < |parts| ensures ';' !in parts[k] {
        if k > 0 { assert parts[k] == Attributes(secure)[k - 1]; }
      }
    }
    SetCookieIsJoin(sessionId, secure);
    SplitJoin(parts, ';');
  }

  /** A segment whose first character is a space and whose second is
      neither whitespace nor the session name's initial has another key. */
  lemma {:induction false} KeyDiffers(segment: string)
    requires |segment| >= 2 && segment[0] == ' ' && !IsWhitespace(segment[1]) && segment[1] != 'y'
    ensures ParseSegment(segment).0 != SessionCookieName
  {
    var rest := segment[1..];
    SpaceTrimmed(rest);
    assert segment == " " + rest;
    var t := Trim(segment);
    assert TrimStart(rest) == rest;
    assert t == TrimEnd(rest);
    TrimEndIsPrefix(rest);
    assert t != [] by {
      assert !IsWhitespace(rest[0]);
    }
    assert t[0] == segment[1];
    SplitFirstIsPrefix(t, "=");
    var key := Split(t, "=")[0];
    assert key == [] || key[0] == segment[1];
    assert SessionCookieName[0] == 'y';
  }

  /** Every attribute has a key other than the session cookie's name. */
  lemma {:induction false} AttributeKeys(secure: bool)
    ensures forall k :: 0 <= k < |Attributes(secure)| ==> ParseSegment(Attributes(secure)[k]).0 != SessionCookieName
  {
    forall k | 0 <= k < |Attributes(secure)|
      ensures ParseSegment(Attributes(secure)[k]).0 != SessionCookieName
    {
      KeyDiffers(Attributes(secure)[k]);
    }
  }

  /** No later pair with a different key disturbs the first one's value. */
  lemma {:induction false} FirstPairStands(first: Pair, rest: seq<Pair>, name: string)
    requires first.0 == name
    requires forall k :: 0 <= k < |rest| ==> rest[k].0 != name
    ensures LastValue([first] + rest, name) == Some(first.1)
    decreases |rest|
  {
    if rest == [] {
      LastPairWins([], first, name);
      assert [first] == [] + [first];
    } else {
      var init := rest[..|rest| - 1];
      FirstPairStands(first, init, name);
      assert [first] + rest == ([first] + init) + [rest[|rest| - 1]];
      OtherPairKeeps([first] + init, rest[|rest| - 1], name);
    }
  }

  /** A header whose segments are the session pair followed by segments
      with other keys gives that pair's id. */
  lemma {:induction false} LeadingPairDecides(header: string, sessionId: string, rest: seq<string>)
    requires sessionId != "" && '=' !in sessionId && !IsWhitespace(sessionId[|sessionId| - 1])
    requires Split(header, ";") == [SessionCookieName + "=" + sessionId] + rest
    requires forall k :: 0 <= k < |rest| ==> ParseSegment(rest[k]).0 != SessionCookieName
    ensures SessionIdOf(Some(header)) == Some(sessionId)
  {
    var first := SessionCookieName + "=" + sessionId;
    NameFacts();
    SplitFirstIsPrefix(header, ";");
    assert |first| <= |header|;
    ParsePair(SessionCookieName, sessionId);
    ParseAllAppendFront(first, rest);
    FirstPairStands(ParseSegment(first), ParseAll(rest), SessionCookieName);
    SessionIdOfPairs(header, Some(sessionId));
  }

  /** Reading back a formatted header as a cookie header gives the id again,
      for any non-empty id without `;` or `=` that does not end in
      whitespace. */
  lemma {:induction false} SetCookieRoundTrip(sessionId: string, secure: bool)
    requires sessionId != "" && ';' !in sessionId && '=' !in sessionId
    requires !IsWhitespace(sessionId[|sessionId| - 1])
    ensures SessionIdOf(Some(SetCookieHeader(sessionId, secure))) == Some(sessionId)
  {
    SetCookieSegments(sessionId, secure);
    AttributeKeys(secure);
    LeadingPairDecides(SetCookieHeader(sessionId, secure), sessionId, Attributes(secure));
  }

  /** Appending `; segment` to a header decides the lookup when the
      segment has the key, and leaves it alone otherwise. */
  lemma {:induction false} AppendedSegment(cookieHeader: string, segment: string, name: string)
    requires ';' !in segment
    ensures Split(cookieHeader + ";" + segment, ";") == Split(cookieHeader, ";") + [segment]
    ensures LastValue(ParseAll(Split(cookieHeader + ";" + segment, ";")), name)
      == if ParseSegment(segment).0 == name then Some(ParseSegment(segment).1)
         else LastValue(ParseAll(Split(cookieHeader, ";")), name)
  {
    SplitCharConcat(cookieHeader, ';', segment);
    FreeChar(segment, ';');
    SplitFree(segment, ";");
    ParseAllAppend(Split(cookieHeader, ";"), segment);
    if ParseSegment(segment).0 == name {
      LastPairWins(ParseAll(Split(cookieHeader, ";")), ParseSegment(segment), name);
    } else {
      OtherPairKeeps(ParseAll(Split(cookieHeader, ";")), ParseSegment(segment), name);
    }
  }

  /** A last segment holding the session cookie decides the lookup: its
      value, or no session when that value is empty. */
  lemma {:induction false} LastSegmentDecides(cookieHeader: string, segment: string, v: string)
    requires ';' !in segment && ParseSegment(segment) == (SessionCookieName, Some(v))
    ensures SessionIdOf(Some(cookieHeader + ";" + segment)) == if v == "" then None else Some(v)
  {
    AppendedSegment(cookieHeader, segment, SessionCookieName);
    SessionIdOfPairs(cookieHeader + ";" + segment, Some(v));
  }

  /** ` yementuel_session=v`: the session cookie as a segment written after
      `;`, with the space browsers put there. */
  function SessionSegment(v: string): string
  {
    " " + SessionCookieName + "=" + v
  }

  lemma {:induction false} SegmentAvoidsSemicolon(v: string)
    requires ';' !in v
    ensures ';' !in SessionSegment(v)
  {
    NameFacts();
  }

  lemma {:induction false} SessionSegmentParses(v: string)
    requires '=' !in v && ';' !in v
    requires v == [] || !IsWhitespace(v[|v| - 1])
    ensures ';' !in SessionSegment(v)
    ensures ParseSegment(SessionSegment(v)) == (SessionCookieName, Some(v))
  {
    NameFacts();
    ParsePair(SessionCookieName, v);
  }

  /** When a header ends with a second session cookie, that one wins,
      whatever came before. */
  lemma {:induction false} LaterDuplicateWins(cookieHeader: string, sessionId: string)
    requires '=' !in sessionId && ';' !in sessionId && sessionId != ""
    requires !IsWhitespace(sessionId[|sessionId| - 1])
    ensures SessionIdOf(Some(cookieHeader + ";" + SessionSegment(sessionId))) == Some(sessionId)
  {
    SessionSegmentParses(sessionId);
    LastSegmentDecides(cookieHeader, SessionSegment(sessionId), sessionId);
  }

  /** The value ends at a further `=`: what follows it is dropped. */
  lemma {:induction false} ValueCutAtEquals(cookieHeader: string, v1: string, v2: string)
    requires v1 != "" && '=' !in v1 && ';' !in v1 && ';' !in v2
    requires v2 == [] || !IsWhitespace(v2[|v2| - 1])
    ensures SessionIdOf(Some(cookieHeader + ";" + SessionSegment(v1 + "=" + v2))) == Some(v1)
  {
    NameFacts();
    ParseWithSecondEquals(SessionCookieName, v1, v2);
    SegmentAvoidsSemicolon(v1 + "=" + v2);
    LastSegmentDecides(cookieHeader, SessionSegment(v1 + "=" + v2), v1);
  }

  /** A last session cookie with an empty value reads as no session, even
      when an earlier one had a value. */
  lemma {:induction false} EmptyValueIsNoSession(cookieHeader: string)
    ensures SessionIdOf(Some(cookieHeader + ";" + SessionSegment(""))) == None
  {
    SessionSegmentParses("");
    LastSegmentDecides(cookieHeader, SessionSegment(""), "");
  }
}
