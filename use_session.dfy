/** The browser side of the anonymous session (src/hooks/useSession.ts): a
    hook that finds an id in the page's cookie or in localStorage, creates
    one when there is none, and writes it back to both. `document.cookie`
    as read and the storage are fields; what the browser's cookie jar does
    with a written cookie is not part of this model, so each assignment to
    `document.cookie` is recorded in `cookieWrites`. uuid's `v4` is the
    parameter `freshId`. */
module UseSession {
  import opened Wrappers
  import opened Text
  import Session

  const SessionStorageKey: string := "yementuel_session"
  const SessionCookieName: string := "yementuel_session"

  // ---------------------------------------------------------------------
  // getCookie

  /** `getCookie(name)` on a page whose `document.cookie` reads
      `documentCookie`: the text after `; name=` up to the next `;`, but only
      when `; name=` occurs exactly once in `; ` + the cookie string, and
      null when that text is empty. */
  function GetCookie(documentCookie: string, name: string): (v: Option<string>)
    ensures v.Some? ==> v.value != "" && ';' !in v.value
  {
    var parts := Split("; " + documentCookie, "; " + name + "=");
    if |parts| == 2 then
      var cookieValue := Split(parts[1], ";")[0];
      SplitPartsFree(parts[1], ";");
      FreeChar(cookieValue, ';');
      if cookieValue == "" then None else Some(cookieValue)
    else None
  }

  /** A cookie string naming `name` nowhere gives null. */
  lemma {:induction false} CookieAbsent(documentCookie: string, name: string)
    requires Free("; " + documentCookie, "; " + name + "=")
    ensures GetCookie(documentCookie, name) == None
  {
    SplitFree("; " + documentCookie, "; " + name + "=");
  }

  /** A cookie string naming `name` twice gives null, whatever the values. */
  lemma {:induction false} CookieDuplicate(documentCookie: string, name: string, j1: int, j2: int)
    requires OccursAt("; " + documentCookie, "; " + name + "=", j1)
    requires OccursAt("; " + documentCookie, "; " + name + "=", j2)
    requires j1 + |"; " + name + "="| <= j2
    ensures GetCookie(documentCookie, name) == None
  {
    SplitTwice("; " + documentCookie, "; " + name + "=", j1, j2);
  }

  /** When the cookie string starts with `name=value`, the value has no `;`,
      and the rest (empty, or starting at the next `;`) never names `name`
      again, the value is found, or null when it is empty. */
  lemma {:induction false} CookieFirst(name: string, value: string, rest: string)
    requires ';' !in value
    requires rest == "" || rest[0] == ';'
    requires Free(rest, "; " + name + "=")
    ensures GetCookie(name + "=" + value + rest, name) == if value == "" then None else Some(value)
  {
    FreePrefixed(value, rest, "; " + name + "=");
    CookieAtStart(name, value + rest);
    assert name + "=" + value + rest == name + "=" + (value + rest);
    ValueBeforeSemicolon(value, rest);
  }

  /** When `; name=` occurs exactly once in `; ` + the cookie string, at
      position `j`, the result is the text after it up to the next `;`, or
      null when that text is empty. */
  lemma {:induction false} CookieOnce(documentCookie: string, name: string, j: nat, value: string, rest: string)
    requires OccursAt("; " + documentCookie, "; " + name + "=", j)
    requires forall k :: 0 <= k <= |"; " + documentCookie| && k != j ==>
      !OccursAt("; " + documentCookie, "; " + name + "=", k)
    requires ("; " + documentCookie)[j + |"; " + name + "="|..] == value + rest
    requires ';' !in value && (rest == "" || rest[0] == ';')
    ensures GetCookie(documentCookie, name) == if value == "" then None else Some(value)
  {
    SplitOnce("; " + documentCookie, "; " + name + "=", j);
    ValueBeforeSemicolon(value, rest);
  }

  /** The cookie written last on a page with other cookies, as
      `document.cookie` lists it: found, whatever the other cookies are, as
      long as none of them is named `name`. */
  lemma {:induction false} CookieAmongOthers(others: string, name: string, value: string)
    requires ';' !in name && ';' !in value
    requires Free("; " + others, "; " + name + "=")
    ensures GetCookie(others + "; " + name + "=" + value, name) == if value == "" then None else Some(value)
  {
    var p, sep := "; " + others, "; " + name + "=";
    var s := "; " + (others + "; " + name + "=" + value);
    assert s == p + sep + value;
    var j := |p|;
    assert s[j..j + |sep|] == sep;
    SeparatorSemicolons(name);
    forall k | 0 <= k <= |s| && k != j ensures !OccursAt(s, sep, k) {
      if k + |sep| > |s| {
      } else if k + |sep| <= j {
        if OccursAt(s, sep, k) {
          assert p[k..k + |sep|] == s[k..k + |sep|];
          assert OccursAt(p, sep, k);
        }
      } else if k < j {
        assert s[k..k + |sep|][j - k] == s[j] == ';';
        assert sep[j - k] != ';';
      } else {
        assert s[k..k + |sep|][0] == s[k];
        if k < j + |sep| {
          assert s[k] == sep[k - j];
        } else {
          assert s[k] == value[k - j - |sep|];
        }
      }
    }
    assert s[j + |sep|..] == value + "";
    CookieOnce(others + "; " + name + "=" + value, name, j, value, "");
  }

  /** The usual page: another cookie first, the session cookie after it. */
  lemma {:induction false} SessionCookieAfterOther()
    ensures GetCookie("other=1" + "; " + SessionCookieName + "=" + "abc", SessionCookieName) == Some("abc")
  {
    Session.NameFacts();
    CookieAmongOthers("other=1", SessionCookieName, "abc");
  }

  /** `; name=` has its only `;` in front. */
  lemma {:induction false} SeparatorSemicolons(name: string)
    requires ';' !in name
    ensures ("; " + name + "=")[0] == ';'
    ensures forall i :: 0 < i < |"; " + name + "="| ==> ("; " + name + "=")[i] != ';'
  {
    var sep := "; " + name + "=";
    forall i | 0 < i < |sep| ensures sep[i] != ';' {
      if 2 <= i < |sep| - 1 {
        assert sep[i] == name[i - 2];
      }
    }
  }

  /** `; name=` at the very start and nowhere after splits into an empty
      text and what follows. */
  lemma {:induction false} CookieAtStart(name: string, tail: string)
    requires Free(tail, "; " + name + "=")
    ensures Split("; " + (name + "=" + tail), "; " + name + "=") == ["", tail]
  {
    var sep := "; " + name + "=";
    var s := "; " + (name + "=" + tail);
    assert s == sep + tail;
    assert s[..|sep|] == sep;
    assert s[|sep|..] == tail;
    SplitFree(tail, sep);
  }

  /** The text before the first `;` of `value` followed by nothing or by a
      `;`-led rest is `value`. */
  lemma {:induction false} ValueBeforeSemicolon(value: string, rest: string)
    requires ';' !in value
    requires rest == "" || rest[0] == ';'
    ensures Split(value + rest, ";")[0] == value
  {
    if rest == "" {
      assert value + rest == value;
      FreeChar(value, ';');
      SplitFree(value, ";");
    } else {
      assert value + rest == value + [';'] + rest[1..];
      SplitCharCons(value, ';', rest[1..]);
    }
  }

  // ---------------------------------------------------------------------
  // the cookie the hook writes

  /** The string `storeSessionId` assigns to `document.cookie`. */
  function ClientCookie(sessionId: string): string
  {
    SessionCookieName + "=" + sessionId + "; Max-Age=" + NatToString(24 * 60 * 60) + "; Path=/; SameSite=Lax"
  }

  /** The assignment keeps the id for a day, for the whole site, with
      `SameSite=Lax`. */
  lemma {:induction false} ClientCookieText(sessionId: string)
    ensures ClientCookie(sessionId) == SessionCookieName + "=" + sessionId + ClientAttributeText()
  {
    Session.MaxAgeText();
    assert "; Max-Age=" + "86400" == "; Max-Age=86400";
    assert "; Path=/; SameSite=Lax" == "; Path=/" + "; SameSite=Lax";
  }

  /** The attribute text of the written cookie, one attribute at a time. */
  function ClientAttributeText(): string
  {
    "; Max-Age=86400" + ("; Path=/" + "; SameSite=Lax")
  }

  /** The attributes of the written cookie, each after its `;`. */
  function ClientAttributes(): (attrs: seq<string>)
    ensures |attrs| == 3
  {
    [" Max-Age=86400", " Path=/", " SameSite=Lax"]
  }

  lemma {:induction false} ClientAttributeTextIsJoin()
    ensures ";" + Join(ClientAttributes(), ";") == ClientAttributeText()
  {
    JoinThreeSpelled(" Max-Age=86400", " Path=/", " SameSite=Lax", ";",
                     "; Max-Age=86400", "; Path=/", "; SameSite=Lax");
  }

  lemma {:induction false} ClientCookieJoinedAttributes(sessionId: string)
    ensures ClientCookie(sessionId) == (SessionCookieName + "=" + sessionId) + (";" + Join(ClientAttributes(), ";"))
  {
    ClientCookieText(sessionId);
    ClientAttributeTextIsJoin();
  }

  lemma {:induction false} ClientCookieIsJoin(sessionId: string)
    ensures ClientCookie(sessionId) == Join([SessionCookieName + "=" + sessionId] + ClientAttributes(), ";")
  {
    ClientCookieJoinedAttributes(sessionId);
    JoinPrefix(SessionCookieName + "=" + sessionId, ClientAttributes(), ";");
  }

  /** No part of the written cookie contains `;`. */
  lemma {:induction false} ClientPartsFree(sessionId: string)
    requires ';' !in sessionId
    ensures forall k :: 0 <= k < |[SessionCookieName + "=" + sessionId] + ClientAttributes()| ==>
      ';' !in ([SessionCookieName + "=" + sessionId] + ClientAttributes())[k]
  {
    Session.NameFacts();
    var parts := [SessionCookieName + "=" + sessionId] + ClientAttributes();
    assert parts[1] == " Max-Age=86400" && parts[2] == " Path=/" && parts[3] == " SameSite=Lax";
  }

  /** The written cookie splits into the session pair and its attributes. */
  lemma {:induction false} ClientCookieSegments(sessionId: string)
    requires ';' !in sessionId
    ensures Split(ClientCookie(sessionId), ";") == [SessionCookieName + "=" + sessionId] + ClientAttributes()
  {
    ClientCookieIsJoin(sessionId);
    ClientPartsFree(sessionId);
    SplitJoin([SessionCookieName + "=" + sessionId] + ClientAttributes(), ';');
  }

  /** No attribute of the written cookie has the session cookie's key. */
  lemma {:induction false} ClientAttributeKeys()
    ensures forall k :: 0 <= k < |ClientAttributes()| ==>
      Session.ParseSegment(ClientAttributes()[k]).0 != Session.SessionCookieName
  {
    forall k | 0 <= k < |ClientAttributes()|
      ensures Session.ParseSegment(ClientAttributes()[k]).0 != Session.SessionCookieName
    {
      Session.KeyDiffers(ClientAttributes()[k]);
    }
  }

  /** The cookie the assignment stores is its first segment,
      `yementuel_session=<id>`. Read back on a later page, alone or listed
      after other cookies, the hook's `getCookie` finds the id again, and so
      does the server's parser when the browser sends it in a `Cookie`
      header. */
  lemma {:induction false} ClientCookieReadBack(sessionId: string, others: string)
    requires sessionId != "" && ';' !in sessionId && '=' !in sessionId
    requires !IsWhitespace(sessionId[|sessionId| - 1])
    ensures Split(ClientCookie(sessionId), ";")[0] == SessionCookieName + "=" + sessionId
    ensures GetCookie(SessionCookieName + "=" + sessionId, SessionCookieName) == Some(sessionId)
    ensures Free("; " + others, "; " + SessionCookieName + "=") ==>
      GetCookie(others + "; " + SessionCookieName + "=" + sessionId, SessionCookieName) == Some(sessionId)
    ensures Session.SessionIdOf(Some(SessionCookieName + "=" + sessionId)) == Some(sessionId)
    ensures Session.SessionIdOf(Some(others + "; " + SessionCookieName + "=" + sessionId)) == Some(sessionId)
  {
    ClientCookieSegments(sessionId);
    HookReadsPair(sessionId, others);
    ServerReadsPair(sessionId, others);
  }

  /** The hook's half of `ClientCookieReadBack`. */
  lemma {:induction false} HookReadsPair(sessionId: string, others: string)
    requires sessionId != "" && ';' !in sessionId
    ensures GetCookie(SessionCookieName + "=" + sessionId, SessionCookieName) == Some(sessionId)
    ensures Free("; " + others, "; " + SessionCookieName + "=") ==>
      GetCookie(others + "; " + SessionCookieName + "=" + sessionId, SessionCookieName) == Some(sessionId)
  {
    assert SessionCookieName + "=" + sessionId + "" == SessionCookieName + "=" + sessionId;
    CookieFirst(SessionCookieName, sessionId, "");
    if Free("; " + others, "; " + SessionCookieName + "=") {
      Session.NameFacts();
      CookieAmongOthers(others, SessionCookieName, sessionId);
    }
  }

  /** The server's half of `ClientCookieReadBack`. */
  lemma {:induction false} ServerReadsPair(sessionId: string, others: string)
    requires sessionId != "" && ';' !in sessionId && '=' !in sessionId
    requires !IsWhitespace(sessionId[|sessionId| - 1])
    ensures Session.SessionIdOf(Some(SessionCookieName + "=" + sessionId)) == Some(sessionId)
    ensures Session.SessionIdOf(Some(others + "; " + SessionCookieName + "=" + sessionId)) == Some(sessionId)
  {
    ServerReadsPairAlone(sessionId);
    ServerReadsPairLast(sessionId, others);
  }

  lemma {:induction false} ServerReadsPairAlone(sessionId: string)
    requires sessionId != "" && ';' !in sessionId && '=' !in sessionId
    requires !IsWhitespace(sessionId[|sessionId| - 1])
    ensures Session.SessionIdOf(Some(Session.SessionCookieName + "=" + sessionId)) == Some(sessionId)
  {
    var pair := Session.SessionCookieName + "=" + sessionId;
    Session.NameFacts();
    FreeChar(pair, ';');
    SplitFree(pair, ";");
    assert [pair] + [] == [pair];
    Session.LeadingPairDecides(pair, sessionId, []);
  }

  lemma {:induction false} ServerReadsPairLast(sessionId: string, others: string)
    requires sessionId != "" && ';' !in sessionId && '=' !in sessionId
    requires !IsWhitespace(sessionId[|sessionId| - 1])
    ensures Session.SessionIdOf(Some(others + "; " + Session.SessionCookieName + "=" + sessionId)) == Some(sessionId)
  {
    assert others + "; " + Session.SessionCookieName + "=" + sessionId
      == others + ";" + Session.SessionSegment(sessionId);
    Session.LaterDuplicateWins(others, sessionId);
  }

  // ---------------------------------------------------------------------
  // the hook

  /** The state of one `useSession()` instance and of the page it runs on. */
  class SessionHook {
    /** The `sessionId` state. */
    var sessionId: Option<string>
    /** The `isLoading` state. */
    var isLoading: bool
    /** `typeof document !== 'undefined'`. */
    const hasDocument: bool
    /** What reading `document.cookie` gives. */
    const documentCookie: string
    /** Every string assigned to `document.cookie`, in order. */
    var cookieWrites: seq<string>
    /** Whether localStorage can be used without throwing. */
    const storageAvailable: bool
    /** The localStorage entries. */
    var storage: map<string, string>

    /** The first render: no id yet, loading. */
    constructor(hasDocument: bool, documentCookie: string, storageAvailable: bool, storage: map<string, string>)
      ensures this.hasDocument == hasDocument && this.documentCookie == documentCookie
      ensures this.storageAvailable == storageAvailable && this.storage == storage
      ensures sessionId == None && isLoading && cookieWrites == []
    {
      this.hasDocument := hasDocument;
      this.documentCookie := documentCookie;
      this.storageAvailable := storageAvailable;
      this.storage := storage;
      sessionId := None;
      isLoading := true;
      cookieWrites := [];
    }

    /** `localStorage.getItem(key)` read through `if (storageValue)`: an
        entry counts only when it is non-empty, and a storage that throws
        counts as none. */
    function StoredId(): (id: Option<string>)
      reads this
      ensures id.Some? <==> storageAvailable && SessionStorageKey in storage && storage[SessionStorageKey] != ""
      ensures id.Some? ==> id.value == storage[SessionStorageKey]
    {
      if storageAvailable && SessionStorageKey in storage && storage[SessionStorageKey] != "" then
        Some(storage[SessionStorageKey])
      else None
    }

    /** `getSessionId()`: the cookie first, localStorage second, and null
        without a document. */
    function GetSessionId(): (id: Option<string>)
      reads this
      ensures !hasDocument ==> id.None?
      ensures hasDocument && GetCookie(documentCookie, SessionCookieName).Some? ==>
        id == GetCookie(documentCookie, SessionCookieName)
      ensures hasDocument && GetCookie(documentCookie, SessionCookieName).None? ==> id == StoredId()
      ensures id.Some? ==> id.value != ""
    {
      if !hasDocument then None
      else
        var cookieValue := GetCookie(documentCookie, SessionCookieName);
        if cookieValue.Some? then cookieValue else StoredId()
    }

    /** `storeSessionId(id)`: one cookie assignment and, when storage works,
        the same id under the storage key; nothing without a document. */
    method StoreSessionId(id: string)
      modifies this
      ensures sessionId == old(sessionId) && isLoading == old(isLoading)
      ensures !hasDocument ==> cookieWrites == old(cookieWrites) && storage == old(storage)
      ensures hasDocument ==> cookieWrites == old(cookieWrites) + [ClientCookie(id)]
      ensures hasDocument && storageAvailable ==> storage == old(storage)[SessionStorageKey := id]
      ensures !storageAvailable ==> storage == old(storage)
    {
      if !hasDocument {
        return;
      }
      var maxAge := 24 * 60 * 60;
      cookieWrites := cookieWrites + [SessionCookieName + "=" + id + "; Max-Age=" + NatToString(maxAge) + "; Path=/; SameSite=Lax"];
      if storageAvailable {
        storage := storage[SessionStorageKey := id];
      }
    }

    /** The effect on `[sessionId]`: store the id whenever it is set to a
        truthy value. */
    method SessionIdChanged()
      modifies this
      ensures sessionId == old(sessionId) && isLoading == old(isLoading)
      ensures sessionId.None? || sessionId.value == "" || !hasDocument ==>
        cookieWrites == old(cookieWrites) && storage == old(storage)
      ensures sessionId.Some? && sessionId.value != "" && hasDocument ==>
        cookieWrites == old(cookieWrites) + [ClientCookie(sessionId.value)]
        && storage == if storageAvailable then old(storage)[SessionStorageKey := sessionId.value] else old(storage)
    {
      if sessionId.Some? && sessionId.value != "" {
        StoreSessionId(sessionId.value);
      }
    }

    /** The mount effect, followed by the store effect its state change
        triggers: an id found in the cookie or in storage is kept, otherwise
        the fresh one is taken; loading ends either way. */
    method Mount(freshId: string)
      modifies this
      ensures old(GetSessionId()).Some? ==> sessionId == old(GetSessionId())
      ensures old(GetSessionId()).None? ==> sessionId == Some(freshId)
      ensures sessionId.Some? && !isLoading
      ensures hasDocument && sessionId.value != "" ==>
        cookieWrites == old(cookieWrites) + [ClientCookie(sessionId.value)]
        && storage == if storageAvailable then old(storage)[SessionStorageKey := sessionId.value] else old(storage)
      ensures !hasDocument || sessionId.value == "" ==>
        cookieWrites == old(cookieWrites) && storage == old(storage)
    {
      var existingSessionId := GetSessionId();
      if existingSessionId.None? {
        existingSessionId := Some(freshId);
        sessionId := existingSessionId;
      }
      sessionId := existingSessionId;
      isLoading := false;
      SessionIdChanged();
    }

    /** `generateNewSession()`: the fresh id replaces the current one and is
        returned; the store effect runs when the state actually changed. */
    method GenerateNewSession(freshId: string) returns (newSessionId: string)
      modifies this
      ensures newSessionId == freshId && sessionId == Some(freshId) && isLoading == old(isLoading)
      ensures old(sessionId) != Some(freshId) && freshId != "" && hasDocument ==>
        cookieWrites == old(cookieWrites) + [ClientCookie(freshId)]
        && storage == if storageAvailable then old(storage)[SessionStorageKey := freshId] else old(storage)
      ensures old(sessionId) == Some(freshId) || freshId == "" || !hasDocument ==>
        cookieWrites == old(cookieWrites) && storage == old(storage)
    {
      var changed := sessionId != Some(freshId);
      newSessionId := freshId;
      sessionId := Some(newSessionId);
      if changed {
        SessionIdChanged();
      }
    }
  }

  /** The cookie wins over localStorage: two pages with the same cookie
      string holding a session id agree on the id, whatever their storage. */
  lemma {:induction false} CookieBeatsStorage(a: SessionHook, b: SessionHook)
    requires a.hasDocument && b.hasDocument && a.documentCookie == b.documentCookie
    requires GetCookie(a.documentCookie, SessionCookieName).Some?
    ensures a.GetSessionId() == b.GetSessionId() == GetCookie(a.documentCookie, SessionCookieName)
  {
  }

  /** Without a session cookie, a stored id is what the hook finds. */
  lemma {:induction false} StorageFallback(h: SessionHook)
    requires h.hasDocument && GetCookie(h.documentCookie, SessionCookieName).None?
    requires h.storageAvailable && SessionStorageKey in h.storage && h.storage[SessionStorageKey] != ""
    ensures h.GetSessionId() == Some(h.storage[SessionStorageKey])
  {
  }
}
