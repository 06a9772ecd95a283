/**
 * The sensor line protocol: `IoTUDPServer.parse_packet` turns one decoded
 * datagram `SERIAL<sendVal k=v;k=v;...>CHECKSUM` into a fragment, or into
 * `None` when any step raises.
 */
module Protocol {
  import opened Wrappers
  import opened Text
  import opened Merge

  /** One channel reading: `None` is the device's explicit `NaN`, `Some(x)` a number. */
  type Sample = Option<real>

  /** The `channel_data` dict: channel name as sent by the device to its reading. */
  type Channels = map<string, Sample>

  /**
   * Python's `float(value)` on the value text, as a partial function: `None`
   * stands for the `ValueError` it raises.
   */
  type NumParser = string -> Option<real>

  /** The dict `parse_packet` returns, without the unused checksum. */
  datatype Fragment = Fragment(serial: string, channels: Channels, raw: string, isEnd: bool)

  /** The command word a data packet must carry inside its brackets. */
  const Marker: string := "sendVal"

  /** The value text that stands for a missing reading. */
  const NaNText: string := "NaN"

  /** A token the tuple unpack `channel_num, value = channel.strip().split('=')` raises on. */
  predicate Malformed(t: string) {
    '=' in t && |Split(Strip(t), '=')| != 2
  }

  predicate WellFormed(tokens: seq<string>) {
    forall i :: 0 <= i < |tokens| ==> !Malformed(tokens[i])
  }

  /** What `channel_data[channel_num] = ...` writes for one `key=value` pair: nothing when `float` raises. */
  function Assign(key: string, value: string, num: NumParser): Channels {
    if Strip(value) == NaNText then map[key := None]
    else match num(value)
      case Some(x) => map[key := Some(x)]
      case None => map[]
  }

  /** What one `;`-separated token writes into `channel_data`: nothing when it has no `=`. */
  function TokenWrite(t: string, num: NumParser): Channels
    requires !Malformed(t)
  {
    if '=' !in t then map[]
    else
      var kv := Split(Strip(t), '=');
      Assign(kv[0], kv[1], num)
  }

  /** The writes of the tokens, in order. */
  function Writes(tokens: seq<string>, num: NumParser): (ws: seq<Channels>)
    requires WellFormed(tokens)
    ensures |ws| == |tokens|
    ensures forall i :: 0 <= i < |tokens| ==> ws[i] == TokenWrite(tokens[i], num)
  {
    if tokens == [] then []
    else Writes(tokens[..|tokens| - 1], num) + [TokenWrite(tokens[|tokens| - 1], num)]
  }

  /** One more well-formed token extends the writes by its own write. */
  lemma WritesSnoc(tokens: seq<string>, i: nat, num: NumParser)
    requires i < |tokens| && WellFormed(tokens[..i]) && !Malformed(tokens[i])
    ensures WellFormed(tokens[..i + 1])
    ensures Overlay(Writes(tokens[..i + 1], num)) == Overlay(Writes(tokens[..i], num)) + TokenWrite(tokens[i], num)
  {
    var pre := tokens[..i + 1];
    assert pre[..i] == tokens[..i];
    assert forall j :: 0 <= j < i ==> !Malformed(tokens[..i][j]);
  }

  /** The channel loop of `parse_packet`: `None` when a token makes the unpack raise. */
  function ParseChannels(tokens: seq<string>, num: NumParser): Option<Channels>
  {
    if WellFormed(tokens) then Some(Overlay(Writes(tokens, num))) else None
  }

  /** `content.replace('sendVal', '').strip()`. */
  function Body(content: string): string {
    Strip(RemoveAll(content, Marker))
  }

  /**
   * `parse_packet` on an already decoded payload. The serial is the text before
   * the first `<`; the content is the second `<`-piece cut at its first `>`.
   * Without a `<` the index `[1]` raises; without the marker `channels_part`
   * is never bound and reading it raises; a malformed token raises too.
   */
  function Parse(payload: string, num: NumParser): Option<Fragment>
  {
    var pieces := Split(payload, '<');
    if |pieces| < 2 then None
    else
      var content := Split(pieces[1], '>')[0];
      if !Contains(content, Marker) then None
      else
        var body := Body(content);
        var channels := if body == [] then Some(map[]) else ParseChannels(Split(body, ';'), num);
        match channels
        case None => None
        case Some(ch) => Some(Fragment(pieces[0], ch, payload, Strip(body) == []))
  }

  /** The inner `try` of the channel loop: store `None` for `NaN`, the number when `float` accepts it, else nothing. */
  method StoreValue(channelData: Channels, channelNum: string, value: string, num: NumParser)
    returns (updated: Channels)
    ensures updated == channelData + Assign(channelNum, value, num)
  {
    updated := channelData;
    if Strip(value) == NaNText {
      updated := updated[channelNum := None];
    } else {
      var x := num(value);
      if x.Some? {
        updated := updated[channelNum := Some(x.value)];
      }
    }
  }

  /**
   * The loop of `parse_packet` that fills `channel_data` in place, one
   * `;`-separated token at a time; `None` when the tuple unpack raises.
   */
  method ReadChannels(tokens: seq<string>, num: NumParser) returns (r: Option<Channels>)
    ensures r == ParseChannels(tokens, num)
  {
    var channelData: Channels := map[];
    var i := 0;
    while i < |tokens|
      invariant 0 <= i <= |tokens|
      invariant WellFormed(tokens[..i])
      invariant channelData == Overlay(Writes(tokens[..i], num))
    {
      var channel := tokens[i];
      if '=' in channel {
        var kv := Split(Strip(channel), '=');
        if |kv| != 2 {
          assert Malformed(tokens[i]);
          return None;
        }
        var channelNum, value := kv[0], kv[1];
        assert TokenWrite(channel, num) == Assign(channelNum, value, num);
        channelData := StoreValue(channelData, channelNum, value, num);
      } else {
        assert TokenWrite(channel, num) == map[];
        assert channelData + map[] == channelData;
      }
      WritesSnoc(tokens, i, num);
      i := i + 1;
    }
    assert tokens[..i] == tokens;
    return Some(channelData);
  }

  /**
   * `parse_packet` on a decoded payload, step by step as the source does it.
   * `Parse` is its specification; `ParseRejects` and `ParsedFragment`
   * describe `Parse` independently of how it is computed.
   */
  method ParsePacket(payload: string, num: NumParser) returns (r: Option<Fragment>)
    ensures r == Parse(payload, num)
  {
    var pieces := Split(payload, '<');
    if |pieces| < 2 {
      return None;
    }
    var serial := pieces[0];
    var content := Split(pieces[1], '>')[0];
    if !Contains(content, Marker) {
      return None;
    }
    var channelsPart := Strip(RemoveAll(content, Marker));
    var channelData: Channels := map[];
    if channelsPart != [] {
      var parsed := ReadChannels(Split(channelsPart, ';'), num);
      if parsed.None? {
        return None;
      }
      channelData := parsed.value;
    }
    return Some(Fragment(serial, channelData, payload, Strip(channelsPart) == []));
  }

  // ---------------------------------------------------------------------
  // What a parsed packet is made of

  /** The bracket content: after the first `<`, cut at the next `<` if any, then at the first `>`. */
  function Window(payload: string): (w: string)
    requires '<' in payload
    ensures '<' !in w && '>' !in w
  {
    BeforeFirst(BeforeFirst(payload[IndexOf(payload, '<') + 1..], '<'), '>')
  }

  /**
   * For `serial<inner>tail` the serial is the text before the `<` and the
   * content is `inner`, whatever the tail holds.
   */
  lemma FramedPayload(serial: string, inner: string, tail: string)
    requires '<' !in serial && '<' !in inner && '>' !in inner
    ensures var p := serial + "<" + inner + ">" + tail;
      '<' in p && p[..IndexOf(p, '<')] == serial && Window(p) == inner
  {
    var p := serial + "<" + inner + ">" + tail;
    var after := inner + ">" + tail;
    Regroup(serial, "<", inner, ">", tail);
    BeforeFirstStops(serial, after, '<');
    assert p[IndexOf(p, '<') + 1..] == after;
    assert '<' !in inner + ">";
    BeforeFirstSkips(inner + ">", tail, '<');
    BeforeFirstStops(inner, BeforeFirst(tail, '<'), '>');
  }

  /** Without a `>` the content runs to the end of the text after the `<`. */
  lemma UnclosedPayload(serial: string, inner: string)
    requires '<' !in serial && '<' !in inner && '>' !in inner
    ensures var p := serial + "<" + inner;
      '<' in p && p[..IndexOf(p, '<')] == serial && Window(p) == inner
  {
    var p := serial + "<" + inner;
    assert p[|serial|] == '<' && p[..|serial|] == serial;
    IndexOfUnique(p, '<', |serial|);
    assert p[|serial| + 1..] == inner;
  }

  lemma MarkerUnbracketed()
    ensures '<' !in Marker && '>' !in Marker
  {
  }

  /** Content that opens with the marker and never repeats it has the rest, stripped, as its body. */
  lemma MarkedContent(rest: string)
    requires !Contains(rest, Marker)
    ensures Contains(Marker + rest, Marker)
    ensures Body(Marker + rest) == Strip(rest)
  {
    var content := Marker + rest;
    assert content[..|Marker|] == Marker;
    assert content[|Marker|..] == rest;
    RemoveAllChanges(rest, Marker);
  }

  /**
   * A payload whose bracket content holds the marker gives the serial before
   * the first `<`, and is an end marker exactly when the body is empty.
   */
  lemma ParseByWindow(p: string, num: NumParser)
    requires '<' in p && Contains(Window(p), Marker)
    ensures var serial, body := p[..IndexOf(p, '<')], Body(Window(p));
      Parse(p, num) ==
        if body == [] then Some(Fragment(serial, map[], p, true))
        else match ParseChannels(Split(body, ';'), num)
          case None => None
          case Some(ch) => Some(Fragment(serial, ch, p, false))
  {
    ContentIsWindow(p);
    StripIdempotent(RemoveAll(Window(p), Marker));
  }

  /**
   * `serial<sendVal rest>tail` is an end marker when `rest` is blank, and
   * otherwise carries the channels of the `;`-separated tokens of `rest`.
   */
  lemma MarkedPayload(serial: string, rest: string, tail: string, num: NumParser)
    requires '<' !in serial && '<' !in rest && '>' !in rest && !Contains(rest, Marker)
    ensures var p := serial + "<" + (Marker + rest) + ">" + tail;
      Parse(p, num) ==
        if Strip(rest) == [] then Some(Fragment(serial, map[], p, true))
        else match ParseChannels(Split(Strip(rest), ';'), num)
          case None => None
          case Some(ch) => Some(Fragment(serial, ch, p, false))
  {
    var p := serial + "<" + (Marker + rest) + ">" + tail;
    MarkerUnbracketed();
    FramedPayload(serial, Marker + rest, tail);
    assert Window(p) == Marker + rest;
    MarkedContent(rest);
    assert Body(Window(p)) == Strip(rest);
    ParseByWindow(p, num);
  }

  /** The same without the closing `>`: the content runs to the end of the payload. */
  lemma UnclosedMarkedPayload(serial: string, rest: string, num: NumParser)
    requires '<' !in serial && '<' !in rest && '>' !in rest && !Contains(rest, Marker)
    ensures var p := serial + "<" + (Marker + rest);
      Parse(p, num) ==
        if Strip(rest) == [] then Some(Fragment(serial, map[], p, true))
        else match ParseChannels(Split(Strip(rest), ';'), num)
          case None => None
          case Some(ch) => Some(Fragment(serial, ch, p, false))
  {
    var p := serial + "<" + (Marker + rest);
    MarkerUnbracketed();
    UnclosedPayload(serial, Marker + rest);
    assert Window(p) == Marker + rest;
    MarkedContent(rest);
    assert Body(Window(p)) == Strip(rest);
    ParseByWindow(p, num);
  }

  /** A `key=value` token without blanks at its ends writes `Assign(key, value)`. */
  lemma TokenWriteOf(key: string, value: string, num: NumParser)
    requires '=' !in key && '=' !in value
    requires key != [] && !IsSpace(key[0]) && value != [] && !IsSpace(value[|value| - 1])
    ensures !Malformed(key + "=" + value)
    ensures TokenWrite(key + "=" + value, num) == Assign(key, value, num)
  {
    var t := key + "=" + value;
    StripUnchanged(t);
    assert t[|key|] == '=' && t[..|key|] == key && t[|key| + 1..] == value;
    SplitJoin([key, value], '=');
    assert Join([key, value], '=') == t;
  }

  /** The `;`-separated tokens of a non-empty body. */
  function Tokens(payload: string): seq<string>
    requires '<' in payload
  {
    Split(Body(Window(payload)), ';')
  }

  lemma ContentIsWindow(payload: string)
    requires '<' in payload
    ensures |Split(payload, '<')| >= 2
    ensures Split(payload, '<')[0] == payload[..IndexOf(payload, '<')]
    ensures Split(Split(payload, '<')[1], '>')[0] == Window(payload)
  {
    SplitHead(payload, '<');
    SplitHead(Split(payload, '<')[1], '>');
  }

  /**
   * A payload is rejected exactly when it has no `<`, when its bracket content
   * lacks the marker, or when its body is non-empty and some token holds two
   * or more `=`. A missing `>` is not among the reasons.
   */
  lemma ParseRejects(payload: string, num: NumParser)
    ensures Parse(payload, num).None? <==>
      || '<' !in payload
      || !Contains(Window(payload), Marker)
      || (Body(Window(payload)) != [] &&
          exists i :: 0 <= i < |Tokens(payload)| && Count(Tokens(payload)[i], '=') >= 2)
  {
    if '<' in payload {
      ContentIsWindow(payload);
      if Body(Window(payload)) != [] {
        ChannelsRejectIffManyEquals(Tokens(payload), num);
      }
    } else {
      SplitHead(payload, '<');
    }
  }

  /**
   * An accepted payload gives the serial before the first `<` and keeps the raw
   * text; it is an end marker exactly when the body is empty, and an end marker
   * carries no channels; otherwise its channels are those of the body's tokens.
   */
  lemma ParsedFragment(payload: string, num: NumParser)
    requires Parse(payload, num).Some?
    ensures '<' in payload
    ensures var f := Parse(payload, num).value;
      && f.serial == payload[..IndexOf(payload, '<')]
      && '<' !in f.serial
      && f.raw == payload
      && (f.isEnd <==> Body(Window(payload)) == [])
      && (f.isEnd ==> f.channels == map[])
      && (!f.isEnd ==> ParseChannels(Tokens(payload), num) == Some(f.channels))
  {
    if '<' !in payload {
      SplitHead(payload, '<');
    }
    ContentIsWindow(payload);
    StripIdempotent(RemoveAll(Window(payload), Marker));
  }

  // ---------------------------------------------------------------------
  // Tokens

  /** The tuple unpack raises exactly on a token with two or more `=`. */
  lemma MalformedIffManyEquals(t: string)
    ensures Malformed(t) <==> Count(t, '=') >= 2
  {
    StripKeepsCount(t, '=');
    SplitPieces(Strip(t), '=');
    CountAbsent(t, '=');
  }

  /** The channel loop fails exactly when some token holds two or more `=`. */
  lemma ChannelsRejectIffManyEquals(tokens: seq<string>, num: NumParser)
    ensures ParseChannels(tokens, num).None? <==>
      exists i :: 0 <= i < |tokens| && Count(tokens[i], '=') >= 2
  {
    forall i | 0 <= i < |tokens| ensures Malformed(tokens[i]) <==> Count(tokens[i], '=') >= 2 {
      MalformedIffManyEquals(tokens[i]);
    }
  }

  /**
   * A token with exactly one `=` writes the value after the `=` under the key
   * before it, both taken from the stripped token (inner blanks stay).
   */
  lemma AssignmentToken(t: string, num: NumParser)
    requires Count(t, '=') == 1
    ensures !Malformed(t) && '=' in Strip(t)
    ensures var st := Strip(t); var i := IndexOf(st, '=');
      TokenWrite(t, num) == Assign(st[..i], st[i + 1..], num)
  {
    OneEquals(t);
    assert !Malformed(t);
  }

  /** A token with one `=` is split by it into the text before and the text after, once stripped. */
  lemma OneEquals(t: string)
    requires Count(t, '=') == 1
    ensures '=' in t && '=' in Strip(t)
    ensures var st := Strip(t); var i := IndexOf(st, '=');
      Split(st, '=') == [st[..i], st[i + 1..]]
  {
    StripKeepsCount(t, '=');
    CountAbsent(t, '=');
    SplitOnce(Strip(t), '=');
  }

  lemma WellFormedConcat(a: seq<string>, b: seq<string>)
    ensures WellFormed(a + b) <==> WellFormed(a) && WellFormed(b)
  {
    if WellFormed(a + b) {
      forall i | 0 <= i < |a| ensures !Malformed(a[i]) { assert a[i] == (a + b)[i]; }
      forall i | 0 <= i < |b| ensures !Malformed(b[i]) { assert b[i] == (a + b)[|a| + i]; }
    }
  }

  lemma WritesConcat(a: seq<string>, b: seq<string>, num: NumParser)
    requires WellFormed(a) && WellFormed(b)
    ensures WellFormed(a + b)
    ensures Writes(a + b, num) == Writes(a, num) + Writes(b, num)
  {
    WellFormedConcat(a, b);
  }

  /** A token that writes nothing (and does not raise) can be left out. */
  lemma SilentTokenIgnored(a: seq<string>, t: string, b: seq<string>, num: NumParser)
    requires !Malformed(t) && TokenWrite(t, num) == map[]
    ensures ParseChannels(a + [t] + b, num) == ParseChannels(a + b, num)
  {
    WellFormedConcat(a + [t], b);
    WellFormedConcat(a, [t]);
    WellFormedConcat(a, b);
    if WellFormed(a) && WellFormed(b) {
      WritesConcat(a, [t], num);
      WritesConcat(a + [t], b, num);
      WritesConcat(a, b, num);
      assert Writes([t], num) == [map[]];
      OverlaySkipsEmpty(Writes(a, num), Writes(b, num));
    }
  }

  /** Tokens none of which holds `=` give no channel at all, yet no error. */
  lemma NoAssignmentNoChannels(tokens: seq<string>, num: NumParser)
    requires forall i :: 0 <= i < |tokens| ==> '=' !in tokens[i]
    ensures ParseChannels(tokens, num) == Some(map[])
  {
    assert WellFormed(tokens);
    OverlayOfEmpty(Writes(tokens, num));
  }

  /** A token without `=`, an empty one included, is skipped. */
  lemma NoEqualsTokenSkipped(a: seq<string>, t: string, b: seq<string>, num: NumParser)
    requires '=' !in t
    ensures ParseChannels(a + [t] + b, num) == ParseChannels(a + b, num)
  {
    SilentTokenIgnored(a, t, b, num);
  }

  /**
   * A value `float` rejects drops only its own channel: the rest of the packet,
   * an earlier value for the same key included, is as if the token were absent.
   */
  lemma UnparsableValueDropped(a: seq<string>, t: string, b: seq<string>, num: NumParser)
    requires Count(t, '=') == 1
    requires var st := Strip(t);
      '=' in st && (var value := st[IndexOf(st, '=') + 1..]; Strip(value) != NaNText && num(value).None?)
    ensures ParseChannels(a + [t] + b, num) == ParseChannels(a + b, num)
  {
    AssignmentToken(t, num);
    SilentTokenIgnored(a, t, b, num);
  }

  // ---------------------------------------------------------------------
  // Channels: last successful write wins

  /** A channel is present exactly when some token writes it. */
  lemma ChannelPresent(tokens: seq<string>, num: NumParser, k: string)
    requires WellFormed(tokens)
    ensures ParseChannels(tokens, num).Some?
    ensures k in ParseChannels(tokens, num).value <==>
      exists i :: 0 <= i < |tokens| && k in TokenWrite(tokens[i], num)
  {
    var ws := Writes(tokens, num);
    OverlayKeys(ws, k);
    if exists i :: 0 <= i < |ws| && k in ws[i] {
      var i :| 0 <= i < |ws| && k in ws[i];
      assert k in TokenWrite(tokens[i], num);
    }
  }

  /** A channel holds the value of the last token that writes it. */
  lemma ChannelLastWrite(tokens: seq<string>, num: NumParser, i: nat, k: string)
    requires WellFormed(tokens)
    requires i < |tokens| && k in TokenWrite(tokens[i], num)
    requires forall j :: i < j < |tokens| ==> k !in TokenWrite(tokens[j], num)
    ensures ParseChannels(tokens, num).Some?
    ensures var ch := ParseChannels(tokens, num).value;
      k in ch && ch[k] == TokenWrite(tokens[i], num)[k]
  {
    OverlayLastWrite(Writes(tokens, num), i, k);
  }

  /** A `NaN` value, the last write of its key, is stored as `None`. */
  lemma NaNStoredAsNone(tokens: seq<string>, num: NumParser, i: nat)
    requires WellFormed(tokens)
    requires i < |tokens| && Count(tokens[i], '=') == 1
    requires var st := Strip(tokens[i]);
      '=' in st && (
        var j := IndexOf(st, '=');
        Strip(st[j + 1..]) == NaNText && forall l :: i < l < |tokens| ==> st[..j] !in TokenWrite(tokens[l], num))
    ensures var st := Strip(tokens[i]); var key := st[..IndexOf(st, '=')];
      ParseChannels(tokens, num).Some? &&
      key in ParseChannels(tokens, num).value &&
      ParseChannels(tokens, num).value[key] == None
  {
    AssignmentToken(tokens[i], num);
    var st := Strip(tokens[i]);
    ChannelLastWrite(tokens, num, i, st[..IndexOf(st, '=')]);
  }
}
