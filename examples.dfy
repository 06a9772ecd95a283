/**
 * Worked payloads: the data packet and end marker of a two-datagram
 * transmission, and the edge cases of the line protocol.
 */
module Examples {
  import opened Wrappers
  import opened Text
  import opened Merge
  import opened Protocol
  import opened Reassembly

  const DataPacket: string := "D1<sendVal 0=5;1=NaN>C"
  const EndPacket: string := "D1<sendVal>C"

  // ---------------------------------------------------------------------
  // Helpers on short texts

  lemma MarkerInitial()
    ensures |Marker| > 0 && Marker[0] == 's'
  {
  }

  /** A text without an `s` cannot hold the marker. */
  lemma Unmarked(rest: string)
    requires 's' !in rest
    ensures !Contains(rest, Marker)
  {
    MarkerInitial();
    ContainsNeedsFirst(rest, Marker);
  }

  /** One leading blank is all `strip()` removes from a text with non-blank ends. */
  lemma StripOneBlank(s: string)
    requires s != [] && !IsSpace(s[0]) && !IsSpace(s[|s| - 1])
    ensures Strip([' '] + s) == s
  {
    assert ([' '] + s)[1..] == s;
    assert TrimLeft([' '] + s) == TrimLeft(s) == s;
    StripUnchanged(s);
  }

  /** A body of one well-formed token writes that token's write. */
  lemma SingleToken(t: string, num: NumParser)
    requires !Malformed(t)
    ensures ParseChannels([t], num) == Some(TokenWrite(t, num))
  {
    assert [t][0] == t;
    assert WellFormed([t]);
    var ws := Writes([t], num);
    assert ws[0] == TokenWrite(t, num);
    assert ws[..0] == [];
    assert map[] + ws[0] == ws[0];
    assert Overlay(ws) == ws[0];
  }

  /** A body of two well-formed tokens writes the first token's write, then the second's. */
  lemma TwoTokens(t0: string, t1: string, num: NumParser)
    requires !Malformed(t0) && !Malformed(t1)
    ensures ParseChannels([t0, t1], num) == Some(TokenWrite(t0, num) + TokenWrite(t1, num))
  {
    assert [t0, t1][0] == t0 && [t0, t1][1] == t1;
    assert WellFormed([t0, t1]);
    var ws := Writes([t0, t1], num);
    assert ws[0] == TokenWrite(t0, num) && ws[1] == TokenWrite(t1, num);
    assert ws[..1][..0] == [] && ws[..1][0] == ws[0];
    assert map[] + ws[0] == ws[0];
    assert Overlay(ws[..1]) == ws[0];
    assert Overlay(ws) == ws[0] + ws[1];
  }

  /** `k=v` with `float(v)` accepted stores the number under `k`. */
  lemma NumberToken(key: string, value: string, x: real, num: NumParser)
    requires '=' !in key && '=' !in value
    requires key != [] && !IsSpace(key[0]) && value != [] && !IsSpace(value[|value| - 1])
    requires Strip(value) != NaNText && num(value) == Some(x)
    ensures !Malformed(key + "=" + value)
    ensures TokenWrite(key + "=" + value, num) == map[key := Some(x)]
  {
    TokenWriteOf(key, value, num);
  }

  /** `k=NaN` stores `None` under `k`. */
  lemma NaNToken(key: string, num: NumParser)
    requires '=' !in key && key != [] && !IsSpace(key[0])
    ensures !Malformed(key + "=" + NaNText)
    ensures TokenWrite(key + "=" + NaNText, num) == map[key := None]
  {
    assert '=' !in NaNText && NaNText[|NaNText| - 1] == 'N';
    StripUnchanged(NaNText);
    TokenWriteOf(key, NaNText, num);
  }

  /** A one-digit value is kept by `strip()` and is not `NaN`. */
  lemma DigitIsNumber(d: char)
    requires '0' <= d <= '9'
    ensures Strip([d]) == [d] != NaNText
  {
    StripUnchanged([d]);
  }

  // ---------------------------------------------------------------------
  // The data packet

  lemma DataShape()
    ensures DataPacket == "D1" + "<" + (Marker + " 0=5;1=NaN") + ">" + "C"
  {
  }

  lemma DataPlain()
    ensures '<' !in " 0=5;1=NaN" && '>' !in " 0=5;1=NaN" && 's' !in " 0=5;1=NaN"
  {
  }

  lemma DataStrip()
    ensures Strip(" 0=5;1=NaN") == "0=5;1=NaN"
  {
    assert " 0=5;1=NaN" == [' '] + "0=5;1=NaN";
    StripOneBlank("0=5;1=NaN");
  }

  lemma DataTokens()
    ensures Split("0=5;1=NaN", ';') == ["0=5", "1=NaN"]
  {
    var parts := ["0=5", "1=NaN"];
    assert Join(parts, ';') == "0=5;1=NaN";
    SplitJoin(parts, ';');
  }

  lemma FirstDataToken(num: NumParser)
    requires num("5") == Some(5.0)
    ensures !Malformed("0=5") && TokenWrite("0=5", num) == map["0" := Some(5.0)]
  {
    assert "0" + "=" + "5" == "0=5";
    DigitIsNumber('5');
    NumberToken("0", "5", 5.0, num);
  }

  lemma SecondDataToken(num: NumParser)
    ensures !Malformed("1=NaN") && TokenWrite("1=NaN", num) == map["1" := None]
  {
    assert "1" + "=" + NaNText == "1=NaN";
    NaNToken("1", num);
  }

  lemma DataMerge()
    ensures map["0" := Some(5.0)] + map["1" := None] == map["0" := Some(5.0), "1" := None]
  {
  }

  lemma DataChannels(num: NumParser)
    requires num("5") == Some(5.0)
    ensures ParseChannels(["0=5", "1=NaN"], num) == Some(map["0" := Some(5.0), "1" := None])
  {
    FirstDataToken(num);
    SecondDataToken(num);
    TwoTokens("0=5", "1=NaN", num);
    DataMerge();
  }

  /** The data packet: serial `D1`, channel `0` read as a number, `NaN` stored as `None`, not an end marker. */
  lemma DataPacketParses(num: NumParser)
    requires num("5") == Some(5.0)
    ensures Parse(DataPacket, num) ==
      Some(Fragment("D1", map["0" := Some(5.0), "1" := None], DataPacket, false))
  {
    DataShape();
    DataPlain();
    Unmarked(" 0=5;1=NaN");
    DataStrip();
    MarkedPayload("D1", " 0=5;1=NaN", "C", num);
    DataTokens();
    DataChannels(num);
  }

  // ---------------------------------------------------------------------
  // The end marker and the transmission

  lemma EndShape()
    ensures EndPacket == "D1" + "<" + (Marker + "") + ">" + "C"
  {
  }

  /** The end marker: serial `D1`, empty body, no channels. */
  lemma EndPacketParses(num: NumParser)
    ensures Parse(EndPacket, num) == Some(Fragment("D1", map[], EndPacket, true))
  {
    EndShape();
    Unmarked("");
    MarkedPayload("D1", "", "C", num);
  }

  /** A single data fragment closed by its end marker becomes a reading of that fragment alone. */
  lemma DataThenEnd(d: Fragment, e: Fragment)
    requires !d.isEnd && e.isEnd && e.serial == d.serial
    ensures Step(Step(map[], d).0, e) == (map[], Some(Reading(d.serial, d.channels, [d.raw])))
  {
    var buf := Step(map[], d).0;
    assert Pending(map[], d.serial) + [d] == [d];
    assert buf == map[d.serial := [d]];
    assert buf - {d.serial} == map[];
    assert ChannelMaps([d]) == [d.channels];
    assert RawPackets([d]) == [d.raw];
    assert [d.channels][..0] == [];
    assert map[] + d.channels == d.channels;
    assert Overlay([d.channels]) == d.channels;
    assert Assemble(d.serial, [d]) == Reading(d.serial, d.channels, [d.raw]);
  }

  /** The data packet then the end marker yield one reading holding the data packet's channels. */
  lemma TwoPacketTransmission(num: NumParser)
    requires num("5") == Some(5.0)
    ensures Parse(DataPacket, num).Some? && Parse(EndPacket, num).Some?
    ensures Step(Step(map[], Parse(DataPacket, num).value).0, Parse(EndPacket, num).value) ==
      (map[], Some(Reading("D1", map["0" := Some(5.0), "1" := None], [DataPacket])))
  {
    DataPacketParses(num);
    EndPacketParses(num);
    DataThenEnd(Parse(DataPacket, num).value, Parse(EndPacket, num).value);
  }

  // ---------------------------------------------------------------------
  // Edge cases

  lemma RepeatShape()
    ensures "D<sendVal 0=1;0=2>C" == "D" + "<" + (Marker + " 0=1;0=2") + ">" + "C"
  {
  }

  lemma RepeatPlain()
    ensures '<' !in " 0=1;0=2" && '>' !in " 0=1;0=2" && 's' !in " 0=1;0=2"
  {
  }

  lemma RepeatStrip()
    ensures Strip(" 0=1;0=2") == "0=1;0=2"
  {
    assert " 0=1;0=2" == [' '] + "0=1;0=2";
    StripOneBlank("0=1;0=2");
  }

  lemma RepeatTokens()
    ensures Split("0=1;0=2", ';') == ["0=1", "0=2"]
  {
    assert Join(["0=1", "0=2"], ';') == "0=1;0=2";
    SplitJoin(["0=1", "0=2"], ';');
  }

  lemma FirstRepeatToken(num: NumParser)
    requires num("1") == Some(1.0)
    ensures !Malformed("0=1") && TokenWrite("0=1", num) == map["0" := Some(1.0)]
  {
    assert "0" + "=" + "1" == "0=1";
    DigitIsNumber('1');
    NumberToken("0", "1", 1.0, num);
  }

  lemma SecondRepeatToken(num: NumParser)
    requires num("2") == Some(2.0)
    ensures !Malformed("0=2") && TokenWrite("0=2", num) == map["0" := Some(2.0)]
  {
    assert "0" + "=" + "2" == "0=2";
    DigitIsNumber('2');
    NumberToken("0", "2", 2.0, num);
  }

  lemma RepeatMerge()
    ensures map["0" := Some(1.0)] + map["0" := Some(2.0)] == map["0" := Some(2.0)]
  {
  }

  lemma RepeatChannels(num: NumParser)
    requires num("1") == Some(1.0) && num("2") == Some(2.0)
    ensures ParseChannels(["0=1", "0=2"], num) == Some(map["0" := Some(2.0)])
  {
    FirstRepeatToken(num);
    SecondRepeatToken(num);
    TwoTokens("0=1", "0=2", num);
    RepeatMerge();
  }

  /** A channel sent twice in one packet keeps its later value. */
  lemma RepeatedChannelLastWins(num: NumParser)
    requires num("1") == Some(1.0) && num("2") == Some(2.0)
    ensures Parse("D<sendVal 0=1;0=2>C", num) ==
      Some(Fragment("D", map["0" := Some(2.0)], "D<sendVal 0=1;0=2>C", false))
  {
    RepeatShape();
    RepeatPlain();
    Unmarked(" 0=1;0=2");
    RepeatStrip();
    RepeatTokens();
    MarkedPayload("D", " 0=1;0=2", "C", num);
    RepeatChannels(num);
  }

  lemma SeparatorsShape()
    ensures "D<sendVal;;>C" == "D" + "<" + (Marker + ";;") + ">" + "C"
  {
  }

  lemma SeparatorsPlain()
    ensures '<' !in ";;" && '>' !in ";;" && 's' !in ";;"
    ensures Strip(";;") == ";;"
  {
    StripUnchanged(";;");
  }

  lemma SeparatorsChannels(num: NumParser)
    ensures ParseChannels(Split(";;", ';'), num) == Some(map[])
  {
    assert Join(["", "", ""], ';') == ";;";
    SplitJoin(["", "", ""], ';');
    NoAssignmentNoChannels(["", "", ""], num);
  }

  /** A non-empty body with no assignment is data, not an end marker, though it carries no channel. */
  lemma SeparatorsOnlyIsData(num: NumParser)
    ensures Parse("D<sendVal;;>C", num) == Some(Fragment("D", map[], "D<sendVal;;>C", false))
  {
    SeparatorsShape();
    SeparatorsPlain();
    Unmarked(";;");
    SeparatorsChannels(num);
    MarkedPayload("D", ";;", "C", num);
  }

  lemma UnclosedShape()
    ensures "D<sendVal 0=1" == "D" + "<" + (Marker + " 0=1")
  {
  }

  lemma UnclosedPlain()
    ensures '<' !in " 0=1" && '>' !in " 0=1" && 's' !in " 0=1"
  {
  }

  lemma UnclosedStrip()
    ensures Strip(" 0=1") == "0=1"
  {
    assert " 0=1" == [' '] + "0=1";
    StripOneBlank("0=1");
  }

  lemma UnclosedChannels(num: NumParser)
    requires num("1") == Some(1.0)
    ensures ParseChannels(Split("0=1", ';'), num) == Some(map["0" := Some(1.0)])
  {
    assert ';' !in "0=1";
    SplitHead("0=1", ';');
    FirstRepeatToken(num);
    SingleToken("0=1", num);
  }

  /** A missing `>` is not an error: the content runs to the end. */
  lemma UnclosedAccepted(num: NumParser)
    requires num("1") == Some(1.0)
    ensures Parse("D<sendVal 0=1", num) ==
      Some(Fragment("D", map["0" := Some(1.0)], "D<sendVal 0=1", false))
  {
    UnclosedShape();
    UnclosedPlain();
    Unmarked(" 0=1");
    UnclosedStrip();
    UnclosedChannels(num);
    UnclosedMarkedPayload("D", " 0=1", num);
  }

  lemma DoubleShape()
    ensures "D<sendVal 0=1=2>C" == "D" + "<" + (Marker + " 0=1=2") + ">" + "C"
  {
  }

  lemma DoublePlain()
    ensures '<' !in " 0=1=2" && '>' !in " 0=1=2" && 's' !in " 0=1=2"
  {
  }

  lemma DoubleStrip()
    ensures Strip(" 0=1=2") == "0=1=2"
  {
    assert " 0=1=2" == [' '] + "0=1=2";
    StripOneBlank("0=1=2");
  }

  lemma DoubleChannels(num: NumParser)
    ensures ParseChannels(Split("0=1=2", ';'), num) == None
  {
    assert ';' !in "0=1=2";
    SplitHead("0=1=2", ';');
    assert Count("0=1=2", '=') == 2;
    ChannelsRejectIffManyEquals(["0=1=2"], num);
  }

  /** Two `=` in one token drop the whole packet. */
  lemma DoubleAssignmentRejected(num: NumParser)
    ensures Parse("D<sendVal 0=1=2>C", num) == None
  {
    DoubleShape();
    DoublePlain();
    Unmarked(" 0=1=2");
    DoubleStrip();
    DoubleChannels(num);
    MarkedPayload("D", " 0=1=2", "C", num);
  }

  lemma NoMarkerShape()
    ensures "D<0=1>C" == "D" + "<" + "0=1" + ">" + "C"
  {
  }

  /** Without the `sendVal` marker the packet is dropped. */
  lemma MissingMarkerRejected(num: NumParser)
    ensures Parse("D<0=1>C", num) == None
  {
    NoMarkerShape();
    FramedPayload("D", "0=1", "C");
    Unmarked("0=1");
    ParseRejects("D<0=1>C", num);
  }

  /** Without a `<` the packet is dropped. */
  lemma MissingOpenRejected(num: NumParser)
    ensures Parse("D1 sendVal 0=1", num) == None
  {
    assert '<' !in "D1 sendVal 0=1";
    ParseRejects("D1 sendVal 0=1", num);
  }
}
