/**
 * `send_message`: one push per configured recipient id that is non-blank
 * after `str.strip()`, in list order. The HTTP POST to the LINE push
 * endpoint is recorded as an entry in the `sent` log.
 */
module Notifier {

  /** `str.isspace()`: the characters Python's `str.strip()` removes. */
  predicate IsSpace(c: char) {
    c == '\t' || c == '\n' || c == '\U{000B}' || c == '\U{000C}' || c == '\r'
    || c == '\U{001C}' || c == '\U{001D}' || c == '\U{001E}' || c == '\U{001F}'
    || c == ' ' || c == '\U{0085}' || c == '\U{00A0}' || c == '\U{1680}'
    || ('\U{2000}' <= c <= '\U{200A}')
    || c == '\U{2028}' || c == '\U{2029}' || c == '\U{202F}' || c == '\U{205F}' || c == '\U{3000}'
  }

  predicate AllSpace(s: string) {
    forall i :: 0 <= i < |s| ==> IsSpace(s[i])
  }

  function TrimStart(s: string): string {
    if |s| > 0 && IsSpace(s[0]) then TrimStart(s[1..]) else s
  }

  function TrimEnd(s: string): string {
    if |s| > 0 && IsSpace(s[|s| - 1]) then TrimEnd(s[..|s| - 1]) else s
  }

  /** `str.strip()` with no argument. */
  function Strip(s: string): string {
    TrimEnd(TrimStart(s))
  }

  /** `TrimStart` drops a maximal all-whitespace prefix. */
  lemma {:induction false} TrimStartIsSuffix(s: string)
    ensures |TrimStart(s)| <= |s|
    ensures TrimStart(s) == s[|s| - |TrimStart(s)|..]
    ensures AllSpace(s[..|s| - |TrimStart(s)|])
    ensures TrimStart(s) == [] || !IsSpace(TrimStart(s)[0])
  {
    if |s| > 0 && IsSpace(s[0]) {
      TrimStartIsSuffix(s[1..]);
      var k := |s| - |TrimStart(s)|;
      assert s[1..][..k - 1] == s[1..k];
      assert forall i :: 1 <= i < k ==> s[i] == s[1..k][i - 1];
    }
  }

  /** `TrimEnd` drops a maximal all-whitespace suffix. */
  lemma {:induction false} TrimEndIsPrefix(s: string)
    ensures |TrimEnd(s)| <= |s|
    ensures TrimEnd(s) == s[..|TrimEnd(s)|]
    ensures AllSpace(s[|TrimEnd(s)|..])
    ensures TrimEnd(s) == [] || !IsSpace(TrimEnd(s)[|TrimEnd(s)| - 1])
  {
    if |s| > 0 && IsSpace(s[|s| - 1]) {
      var p := s[..|s| - 1];
      TrimEndIsPrefix(p);
      var k := |TrimEnd(s)|;
      assert p[..k] == s[..k];
      assert forall i :: k <= i < |s| - 1 ==> s[i] == p[k..][i - k];
    }
  }

  /**
   * `Strip(s)` is the slice of `s` left once a maximal whitespace prefix
   * and a maximal whitespace suffix are removed: it neither starts nor
   * ends with whitespace, and everything cut off is whitespace.
   */
  lemma StripIsTrimmedSlice(s: string)
    ensures exists i, j :: 0 <= i <= j <= |s| && Strip(s) == s[i..j]
                          && AllSpace(s[..i]) && AllSpace(s[j..])
    ensures Strip(s) != [] ==> !IsSpace(Strip(s)[0]) && !IsSpace(Strip(s)[|Strip(s)| - 1])
  {
    var t := TrimStart(s);
    TrimStartIsSuffix(s);
    TrimEndIsPrefix(t);
    var i := |s| - |t|;
    var j := i + |Strip(s)|;
    assert Strip(s) == s[i..j];
    assert s[j..] == t[|Strip(s)|..];
    if Strip(s) != [] {
      assert Strip(s)[0] == t[0];
    }
  }

  /** A user id is skipped exactly when it is blank: empty or all whitespace. */
  lemma {:induction false} StripBlank(s: string)
    ensures Strip(s) == [] <==> AllSpace(s)
  {
    var t := TrimStart(s);
    TrimStartIsSuffix(s);
    TrimEndIsPrefix(t);
    if Strip(s) == [] {
      assert AllSpace(t[0..]);
      assert s == s[..|s| - |t|] + t;
    } else {
      var i := |s| - |t|;
      assert s[i] == t[0];
    }
  }

  /** The ids that receive a push, stripped, in list order (lines 95-98). */
  function Recipients(userIds: seq<string>): seq<string> {
    if userIds == [] then []
    else
      var last := Strip(userIds[|userIds| - 1]);
      Recipients(userIds[..|userIds| - 1]) + (if last != [] then [last] else [])
  }

  /** Filtering distributes over concatenation, so list order is kept. */
  lemma {:induction false} RecipientsAppend(a: seq<string>, b: seq<string>)
    ensures Recipients(a + b) == Recipients(a) + Recipients(b)
  {
    if b == [] {
      assert a + b == a;
    } else {
      var b' := b[..|b| - 1];
      assert (a + b)[..|a + b| - 1] == a + b';
      RecipientsAppend(a, b');
    }
  }

  /**
   * Someone receives a push exactly when their id, stripped, is non-empty
   * and some configured entry strips to it.
   */
  lemma {:induction false} RecipientsExactly(userIds: seq<string>, u: string)
    ensures u in Recipients(userIds) <==> u != [] && exists i :: 0 <= i < |userIds| && Strip(userIds[i]) == u
  {
    if userIds != [] {
      var init := userIds[..|userIds| - 1];
      RecipientsExactly(init, u);
      if u != [] && Strip(userIds[|userIds| - 1]) != u {
        assert (exists i :: 0 <= i < |userIds| && Strip(userIds[i]) == u)
               <==> (exists i :: 0 <= i < |init| && Strip(init[i]) == u) by {
          forall i | 0 <= i < |userIds| && Strip(userIds[i]) == u
            ensures 0 <= i < |init| && Strip(init[i]) == u
          {
            assert init[i] == userIds[i];
          }
          forall i | 0 <= i < |init| && Strip(init[i]) == u
            ensures 0 <= i < |userIds| && Strip(userIds[i]) == u
          {
            assert init[i] == userIds[i];
          }
        }
      }
    }
  }

  /** Every push goes to a non-empty id with no surrounding whitespace. */
  lemma {:induction false} RecipientsAreTrimmed(userIds: seq<string>)
    ensures forall k :: 0 <= k < |Recipients(userIds)| ==>
              Recipients(userIds)[k] != [] && Strip(Recipients(userIds)[k]) == Recipients(userIds)[k]
  {
    if userIds != [] {
      var init := userIds[..|userIds| - 1];
      RecipientsAreTrimmed(init);
      StripIdempotent(userIds[|userIds| - 1]);
    }
  }

  /** Stripping twice is stripping once. */
  lemma StripIdempotent(s: string)
    ensures Strip(Strip(s)) == Strip(s)
  {
    StripIsTrimmedSlice(s);
    var r := Strip(s);
    if r != [] {
      assert TrimStart(r) == r;
      assert TrimEnd(r) == r;
    }
  }

  /** The notification text; only the embedded current pressure is modelled. */
  datatype Message = PressureDropAlert(currentPressure: real)

  /** One push request: its recipient and its message. */
  datatype Push = Push(to: string, message: Message)

  /** The pushes `send_message(msg)` issues for the configured ids. */
  function PushesFor(msg: Message, userIds: seq<string>): seq<Push> {
    var rs := Recipients(userIds);
    seq(|rs|, k requires 0 <= k < |rs| => Push(rs[k], msg))
  }

  /** The LINE channel: the configured `USER_IDS` and the pushes issued so far. */
  class LineChannel {
    const userIds: seq<string>
    var sent: seq<Push>

    constructor (userIds: seq<string>)
      ensures this.userIds == userIds && sent == []
    {
      this.userIds := userIds;
      sent := [];
    }

    /** `send_message`: one push per non-blank stripped id, in order. */
    method SendMessage(msg: Message)
      modifies this
      ensures sent == old(sent) + PushesFor(msg, userIds)
    {
      var i := 0;
      while i < |userIds|
        invariant 0 <= i <= |userIds|
        invariant sent == old(sent) + PushesFor(msg, userIds[..i])
      {
        var uid := Strip(userIds[i]);
        assert userIds[..i + 1][..i] == userIds[..i];
        if uid != [] {
          sent := sent + [Push(uid, msg)];
        }
        i := i + 1;
      }
      assert userIds[..i] == userIds;
    }
  }
}
