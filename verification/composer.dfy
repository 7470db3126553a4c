/** Sending a message (src/App.js:175-184): text that `trim()` reduces to
    nothing is ignored; otherwise one message document is written with the
    text as typed, and the input is cleared once the write has resolved. */
module Composer {
  import opened Wrappers
  import Feed

  /** The characters `String.prototype.trim` removes: the ECMAScript
      WhiteSpace and LineTerminator code points. */
  predicate IsJsWhitespace(c: char)
  {
    var n := c as int;
    || n == 0x09 || n == 0x0A || n == 0x0B || n == 0x0C || n == 0x0D
    || n == 0x20 || n == 0xA0 || n == 0x1680
    || (0x2000 <= n <= 0x200A)
    || n == 0x2028 || n == 0x2029 || n == 0x202F || n == 0x205F
    || n == 0x3000 || n == 0xFEFF
  }

  predicate AllWhitespace(s: string)
  {
    forall k | 0 <= k < |s| :: IsJsWhitespace(s[k])
  }

  /** Drops leading whitespace. */
  function TrimStart(s: string): (r: string)
    ensures |r| <= |s| && r == s[|s| - |r|..]
    ensures AllWhitespace(s[..|s| - |r|])
    ensures |r| > 0 ==> !IsJsWhitespace(r[0])
  {
    if |s| > 0 && IsJsWhitespace(s[0]) then TrimStart(s[1..]) else s
  }

  /** Drops trailing whitespace. */
  function TrimEnd(s: string): (r: string)
    ensures |r| <= |s| && r == s[..|r|]
    ensures AllWhitespace(s[|r|..])
    ensures |r| > 0 ==> !IsJsWhitespace(r[|r| - 1])
  {
    if |s| > 0 && IsJsWhitespace(s[|s| - 1]) then TrimEnd(s[..|s| - 1]) else s
  }

  function Trim(s: string): (r: string)
    ensures |r| > 0 ==> !IsJsWhitespace(r[0]) && !IsJsWhitespace(r[|r| - 1])
  {
    TrimEnd(TrimStart(s))
  }

  /** `trim()` yields the empty string exactly for whitespace-only text,
      the empty text included. */
  lemma TrimEmptyIffWhitespace(s: string)
    ensures Trim(s) == "" <==> AllWhitespace(s)
  {
    var t := TrimStart(s);
    if Trim(s) == "" {
      assert |t| == 0;
      assert s[..|s| - |t|] == s;
    } else {
      assert |t| > 0;
      var k := |s| - |t|;
      assert s[k] == t[0];
    }
  }

  /** The signed-in user's identity fields copied into a message. */
  datatype User = User(uid: string, email: string, photoURL: Option<string>)

  /** The fields of a message document as `sendMessage` writes them; the
      store assigns the id. */
  datatype Draft = Draft(text: string, createdAt: Feed.Timestamp, email: string, avatar: Option<string>)

  /** What a call does: the write it issues (None: none) and the text left in
      the input box afterwards. */
  datatype SendOutcome = SendOutcome(written: Option<Draft>, input: string)

  /** `sendMessage` with the input box holding `input`, the clock reading
      `now`, and `writeSucceeds` false when the write is rejected (the error
      then leaves the function before the input is cleared). */
  function SendMessage(input: string, user: User, now: Feed.Timestamp, writeSucceeds: bool): (o: SendOutcome)
    ensures o.written.None? <==> AllWhitespace(input)
    ensures o.written.None? ==> o.input == input
    ensures o.written.Some? ==> o.written.value == Draft(input, now, user.email, user.photoURL)
    ensures o.written.Some? ==> (o.input == "" <==> writeSucceeds)
    ensures o.written.Some? && !writeSucceeds ==> o.input == input
  {
    TrimEmptyIffWhitespace(input);
    if Trim(input) == "" then SendOutcome(None, input)
    else
      var draft := Draft(input, now, user.email, user.photoURL);
      SendOutcome(Some(draft), if writeSucceeds then "" else input)
  }

  /** Three spaces, a tab and a newline, or nothing at all: no write. */
  lemma BlankInputsAreIgnored(user: User, now: Feed.Timestamp, ok: bool)
    ensures SendMessage("   ", user, now, ok) == SendOutcome(None, "   ")
    ensures SendMessage(" \t\n", user, now, ok) == SendOutcome(None, " \t\n")
    ensures SendMessage("", user, now, ok) == SendOutcome(None, "")
  {
    assert AllWhitespace("   ");
    assert AllWhitespace(" \t\n");
  }

  /** Surrounding spaces are not removed from what is stored. */
  lemma TextIsStoredUntrimmed(user: User, now: Feed.Timestamp)
    ensures SendMessage(" hi ", user, now, true).written == Some(Draft(" hi ", now, user.email, user.photoURL))
    ensures SendMessage(" hi ", user, now, true).input == ""
  {
    assert !IsJsWhitespace(" hi "[1]);
  }
}
