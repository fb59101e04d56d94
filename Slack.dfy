/** Posting one pokemon to the Slack webhook (index.js:116-159). */
module Slack {
  import opened Wrappers
  import opened Failures
  import opened Neighbors

  /** `s.split(sep)` for a one-character separator: the pieces between separators, at least one. */
  function Split(s: string, sep: char): (r: seq<string>)
    ensures |r| >= 1
    decreases |s|
  {
    if s == [] then [""]
    else
      var rest := Split(s[1..], sep);
      if s[0] == sep then [""] + rest
      else [[s[0]] + rest[0]] + rest[1..]
  }

  /** `parts.join(sep)`. */
  function Join(parts: seq<string>, sep: char): string
    decreases |parts|
  {
    if parts == [] then ""
    else if |parts| == 1 then parts[0]
    else parts[0] + [sep] + Join(parts[1..], sep)
  }

  /** Splitting and joining again gives back the string. */
  lemma {:induction false} SplitJoin(s: string, sep: char)
    ensures Join(Split(s, sep), sep) == s
    decreases |s|
  {
    if s != [] {
      var tail := s[1..];
      SplitJoin(tail, sep);
      var rest := Split(tail, sep);
      assert s == [s[0]] + tail;
      if s[0] == sep {
        var parts := [""] + rest;
        assert Split(s, sep) == parts;
        assert parts[1..] == rest;
        assert Join(parts, sep) == "" + [sep] + Join(rest, sep);
      } else {
        var head := [s[0]] + rest[0];
        var parts := [head] + rest[1..];
        assert Split(s, sep) == parts;
        if |rest| == 1 {
          assert Join(parts, sep) == head;
        } else {
          var more := Join(rest[1..], sep);
          assert parts[1..] == rest[1..];
          assert Join(parts, sep) == head + [sep] + more;
          assert tail == rest[0] + [sep] + more;
        }
      }
    }
  }

  /** No piece contains the separator. */
  lemma {:induction false} SplitPieces(s: string, sep: char)
    ensures forall k :: 0 <= k < |Split(s, sep)| ==> sep !in Split(s, sep)[k]
    decreases |s|
  {
    if s != [] {
      SplitPieces(s[1..], sep);
      var rest := Split(s[1..], sep);
      if s[0] != sep {
        assert sep !in [s[0]] + rest[0];
      }
    }
  }

  /** There is one piece exactly when the string has no separator. */
  lemma {:induction false} SplitSingle(s: string, sep: char)
    ensures |Split(s, sep)| == 1 <==> sep !in s
    decreases |s|
  {
    if s != [] {
      SplitSingle(s[1..], sep);
      assert s == [s[0]] + s[1..];
    }
  }

  datatype Attachment = Attachment(imageUrl: string)

  /** The message record posted to the webhook. */
  datatype Message = Message(url: string, channel: string, iconEmoji: string, text: string, attachments: seq<Attachment>)

  const Icon: string := ":yum:"
  const TextPrefix: string := "[\U{30DD}\U{30B1}\U{30E2}\U{30F3}\U{30EC}\U{30FC}\U{30C0}\U{30FC}] "
  const TextSuffix: string := " \U{304C} \U{73FE}\U{308C}\U{307E}\U{3057}\U{305F}"

  /** A name as string concatenation renders it: an absent name becomes the text "undefined". */
  function Show(name: Option<string>): string {
    match name
    case Some(n) => n
    case None => "undefined"
  }

  /**
   * The message for one pokemon: the webhook config string is split at '@' into the url (first piece)
   * and the channel ('@' and the second piece, "undefined" when there is none).
   */
  function BuildMessage(pokemon: Species, hookUrl: string): Message {
    var u := Split(hookUrl, '@');
    Message(
      u[0],
      "@" + (if |u| > 1 then u[1] else "undefined"),
      Icon,
      TextPrefix + Show(pokemon.name) + TextSuffix,
      [Attachment(pokemon.img)])
  }

  /**
   * The message's url is the config string up to its first '@'; when there is an '@', the channel is '@'
   * followed by the text up to the next '@' or the end.
   */
  lemma MessageAddress(pokemon: Species, hookUrl: string)
    ensures var m := BuildMessage(pokemon, hookUrl);
      && '@' !in m.url
      && ('@' !in hookUrl ==> m.url == hookUrl && m.channel == "@undefined")
      && ('@' in hookUrl ==>
            && m.url + "@" <= hookUrl
            && |m.channel| >= 1 && m.channel[0] == '@' && '@' !in m.channel[1..]
            && (m.url + m.channel == hookUrl || m.url + m.channel + "@" <= hookUrl))
  {
    SplitFirstPieces(hookUrl, '@');
    SplitPieces(hookUrl, '@');
    var u := Split(hookUrl, '@');
    var m := BuildMessage(pokemon, hookUrl);
    assert m.url == u[0];
    if '@' in hookUrl {
      var first := u[0] + "@";
      var both := first + u[1];
      assert first <= both;
      assert m.channel == "@" + u[1];
      assert m.channel[1..] == u[1];
      assert m.url + m.channel == both;
      assert both == hookUrl || both + "@" <= hookUrl;
      assert first <= hookUrl;
    }
  }

  /**
   * Without a separator the string is its own only piece; with one, it starts with the first piece,
   * the separator and the second piece, followed by the end or another separator.
   */
  lemma SplitFirstPieces(s: string, sep: char)
    ensures sep !in s ==> Split(s, sep) == [s]
    ensures sep in s ==>
      var u := Split(s, sep);
      && |u| >= 2
      && (s == u[0] + [sep] + u[1] || u[0] + [sep] + u[1] + [sep] <= s)
      && u[0] + [sep] <= s
  {
    SplitJoin(s, sep);
    SplitSingle(s, sep);
    var u := Split(s, sep);
    if sep !in s {
      assert Join(u, sep) == u[0];
    } else {
      var rest := Join(u[1..], sep);
      assert s == u[0] + [sep] + rest;
      if |u| == 2 {
        assert rest == u[1];
      } else {
        assert u[1..][1..] == u[2..];
        var more := Join(u[2..], sep);
        assert rest == u[1] + [sep] + more;
        assert s == (u[0] + [sep] + u[1] + [sep]) + more;
      }
    }
  }

  /** The name shown in a message's text, read back between the fixed prefix and suffix. */
  function ShownName(m: Message): Option<string> {
    var t := m.text;
    if |t| >= |TextPrefix| + |TextSuffix| && TextPrefix <= t && t[|t| - |TextSuffix|..] == TextSuffix
    then Some(t[|TextPrefix|..|t| - |TextSuffix|])
    else None
  }

  /** The image of a message with a single attachment. */
  function ShownImage(m: Message): Option<string> {
    if |m.attachments| == 1 then Some(m.attachments[0].imageUrl) else None
  }

  /** Reading the message back recovers the pokemon's displayed name and its image; the icon is fixed. */
  lemma MessageRoundTrip(pokemon: Species, hookUrl: string)
    ensures var m := BuildMessage(pokemon, hookUrl);
      && ShownName(m) == Some(Show(pokemon.name))
      && ShownImage(m) == Some(pokemon.img)
      && m.iconEmoji == Icon
  {
    var t := BuildMessage(pokemon, hookUrl).text;
    var n := Show(pokemon.name);
    assert t == TextPrefix + n + TextSuffix;
    assert t[|t| - |TextSuffix|..] == TextSuffix;
    assert t[|TextPrefix|..|t| - |TextSuffix|] == n;
  }

  /** What the transport reports for one POST: a response, or an `error` event on the request. */
  datatype Reply = Response(statusCode: int, statusMessage: string) | RequestError(detail: string)

  /** How the `end` handler treats a reply. */
  datatype Verdict = Delivered | Rejected | Aborted(failure: Failure)

  /**
   * Below 400 the post succeeded; from 400 to 499 it is logged and still reported as success; from 500 on,
   * `callback` at index.js:153 is not defined, so a ReferenceError ends the run instead of an Error
   * carrying the status message. A request `error` event has no listener and ends the run too.
   */
  function Classify(reply: Reply): Verdict {
    match reply
    case RequestError(d) => Aborted(RequestFailed(d))
    case Response(status, _) =>
      if status < 400 then Delivered
      else if status < 500 then Rejected
      else Aborted(CallbackUndefined)
  }

  /** `postPokemonToSlack`: the message posted for `pokemon` and the verdict on the reply it received. */
  function PostPokemonToSlack(pokemon: Species, hookUrl: string, reply: Reply): (Message, Verdict) {
    (BuildMessage(pokemon, hookUrl), Classify(reply))
  }
}
