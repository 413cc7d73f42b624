/** DDS names and entity XML, formatted into strings of fixed capacity. */
module Names {
  import opened Bytes

  const TOPIC_NAME_MAX := 96

  /** A string as the sequence of its bytes; each character is one byte. */
  type ByteChar = c: char | c as int < 0x100 witness '/'
  type Text = seq<ByteChar>

  /** The bytes of a string, as they go on the wire. */
  function AsBytes(s: Text): (b: seq<byte>)
    ensures |b| == |s|
    ensures forall i :: 0 <= i < |s| ==> b[i] == s[i] as int
  {
    if s == [] then [] else [s[0] as int] + AsBytes(s[1..])
  }

  function Concat(pieces: seq<Text>): Text {
    if pieces == [] then "" else pieces[0] + Concat(pieces[1..])
  }

  /**
   * Formatting into a string with room for `cap` more bytes stops, silently, at the first piece
   * that does not fit.
   */
  function Format(cap: nat, pieces: seq<Text>): (r: Text)
    ensures |r| <= cap
  {
    if pieces == [] || |pieces[0]| > cap then ""
    else pieces[0] + Format(cap - |pieces[0]|, pieces[1..])
  }

  /** The text is complete exactly when it fits; otherwise it is a proper prefix of it. */
  lemma {:induction false} FormatCompleteExactly(cap: nat, pieces: seq<Text>)
    ensures Format(cap, pieces) == Concat(pieces) <==> |Concat(pieces)| <= cap
    ensures Format(cap, pieces) <= Concat(pieces)
  {
    if pieces != [] && |pieces[0]| <= cap {
      FormatCompleteExactly(cap - |pieces[0]|, pieces[1..]);
      var rest := Format(cap - |pieces[0]|, pieces[1..]);
      assert (pieces[0] + rest)[|pieces[0]|..] == rest;
      assert (pieces[0] + Concat(pieces[1..]))[|pieces[0]|..] == Concat(pieces[1..]);
    }
  }

  /** Whole pieces are kept, as many as fit one after the other, and nothing of the rest. */
  lemma {:induction false} FormatKeepsWholePieces(cap: nat, pieces: seq<Text>) returns (k: nat)
    ensures k <= |pieces| && Format(cap, pieces) == Concat(pieces[..k])
    ensures k < |pieces| ==> |Concat(pieces[..k])| + |pieces[k]| > cap
  {
    k := 0;
    if pieces != [] && |pieces[0]| <= cap {
      k := FormatKeepsWholePieces(cap - |pieces[0]|, pieces[1..]);
      k := k + 1;
      assert pieces[..k][1..] == pieces[1..][..k - 1];
    }
  }

  /** The part of a topic after one optional leading slash. */
  function TopicBody(topic: Text): Text {
    if Rooted(topic) then topic[1..] else topic
  }

  /** `/foo/bar` becomes `rt/foo/bar`, if that fits a topic name. */
  function Ros2TopicName(topic: Text): (r: Result<Text>)
    ensures r.Ok? ==> |r.value| <= TOPIC_NAME_MAX
    ensures r.Err? ==> r.error == BufferTooSmall
  {
    var body := TopicBody(topic);
    if 3 + |body| <= TOPIC_NAME_MAX then Ok("rt/" + body) else Err(BufferTooSmall)
  }

  predicate Rooted(topic: Text) {
    topic != "" && topic[0] == '/'
  }

  /**
   * A topic is accepted with up to 93 characters, not counting a slash in front; the name is then
   * `rt/` and the topic without that slash.
   */
  lemma TopicNameExactly(topic: Text)
    ensures Ros2TopicName(topic).Ok? <==> |topic| <= 93 || (|topic| == 94 && topic[0] == '/')
    ensures Ros2TopicName(topic).Err? ==> Ros2TopicName(topic) == Err(BufferTooSmall)
    ensures Ros2TopicName(topic).Ok? ==>
      var name := Ros2TopicName(topic).value;
      && 3 <= |name| && name[0] == 'r' && name[1] == 't' && name[2] == '/'
      && (if topic != "" && topic[0] == '/' then topic == "/" + name[3..] else topic == name[3..])
  {
    assert ("rt/" + TopicBody(topic))[3..] == TopicBody(topic);
    if topic != "" && topic[0] == '/' {
      assert topic == "/" + topic[1..];
    }
  }

  /**
   * Two topics that have a DDS name share it if and only if they are the same or one is the
   * other, which has no leading slash, with a slash put in front.
   */
  lemma TopicNamesExact(a: Text, b: Text)
    requires Ros2TopicName(a).Ok? && Ros2TopicName(b).Ok?
    ensures Ros2TopicName(a) == Ros2TopicName(b)
       <==> (a == b || (a == "/" + b && !Rooted(b)) || (b == "/" + a && !Rooted(a)))
  {
    assert ("rt/" + TopicBody(a))[3..] == TopicBody(a);
    assert ("rt/" + TopicBody(b))[3..] == TopicBody(b);
    if Rooted(a) {
      assert a == "/" + a[1..];
    }
    if Rooted(b) {
      assert b == "/" + b[1..];
    }
  }

  // The longer literals are in two pieces, each short enough to be seen to be a `Text`.

  function NodeXml(name: Text): (x: Text)
    ensures |x| <= 128
  {
    Format(128, ["<dds><participant><rtps><name>", name, "</name></rtps></participant></dds>"])
  }

  function TopicXml(topic: Text, typeName: Text): (x: Text)
    ensures |x| <= 256
  {
    Format(256, ["<dds><topic><name>", topic, "</name><dataType>", typeName, "</dataType></topic></dds>"])
  }

  function WriterXml(topic: Text, typeName: Text): (x: Text)
    ensures |x| <= 320
  {
    Format(320, ["<dds><data_writer><topic>" + "<kind>NO_KEY</kind><name>", topic, "</name><dataType>", typeName,
                 "</dataType></topic></data_writer></dds>"])
  }

  function ReaderXml(topic: Text, typeName: Text): (x: Text)
    ensures |x| <= 320
  {
    Format(320, ["<dds><data_reader><topic>" + "<kind>NO_KEY</kind><name>", topic, "</name><dataType>", typeName,
                 "</dataType></topic></data_reader></dds>"])
  }

  function PublisherXml(): (x: Text)
    ensures |x| <= 320
  {
    "<dds><publisher><name>MyPublisher" + "</name></publisher></dds>"
  }

  function SubscriberXml(): (x: Text)
    ensures |x| <= 320
  {
    "<dds><subscriber><name>MySubscriber" + "</name></subscriber></dds>"
  }

  // ---- the XML of each entity ----

  lemma ThreePieces(a: Text, b: Text, c: Text)
    ensures Concat([a, b, c]) == a + b + c
  {
    assert [a, b, c][1..] == [b, c] && [b, c][1..] == [c] && [c][1..] == [];
    assert Concat([c]) == c && Concat([b, c]) == b + c;
  }

  lemma FivePieces(a: Text, b: Text, c: Text, d: Text, e: Text)
    ensures Concat([a, b, c, d, e]) == a + b + c + d + e
  {
    assert [a, b, c, d, e][1..] == [b, c, d, e] && [b, c, d, e][1..] == [c, d, e];
    ThreePieces(c, d, e);
  }

  /** A participant carries the node's name; up to 128 characters in all. */
  lemma NodeXmlText(name: Text)
    ensures
      var x := "<dds><participant><rtps><name>" + name + "</name></rtps></participant></dds>";
      NodeXml(name) == x <==> |x| <= 128
  {
    FormatCompleteExactly(128, ["<dds><participant><rtps><name>", name, "</name></rtps></participant></dds>"]);
    ThreePieces("<dds><participant><rtps><name>", name, "</name></rtps></participant></dds>");
  }

  /** A topic carries its name and then its type; up to 256. */
  lemma TopicXmlText(topic: Text, typeName: Text)
    ensures
      var x := "<dds><topic><name>" + topic + "</name><dataType>" + typeName + "</dataType></topic></dds>";
      TopicXml(topic, typeName) == x <==> |x| <= 256
  {
    FormatCompleteExactly(256, ["<dds><topic><name>", topic, "</name><dataType>", typeName, "</dataType></topic></dds>"]);
    FivePieces("<dds><topic><name>", topic, "</name><dataType>", typeName, "</dataType></topic></dds>");
  }

  /** A writer and a reader carry both for a topic without a key; up to 320. */
  lemma WriterXmlText(topic: Text, typeName: Text)
    ensures
      var x := "<dds><data_writer><topic>" + "<kind>NO_KEY</kind><name>" + topic + "</name><dataType>" + typeName
        + "</dataType></topic></data_writer></dds>";
      WriterXml(topic, typeName) == x <==> |x| <= 320
  {
    var a: Text := "<dds><data_writer><topic>" + "<kind>NO_KEY</kind><name>";
    FormatCompleteExactly(320, [a, topic, "</name><dataType>", typeName, "</dataType></topic></data_writer></dds>"]);
    FivePieces(a, topic, "</name><dataType>", typeName, "</dataType></topic></data_writer></dds>");
  }

  lemma ReaderXmlText(topic: Text, typeName: Text)
    ensures
      var x := "<dds><data_reader><topic>" + "<kind>NO_KEY</kind><name>" + topic + "</name><dataType>" + typeName
        + "</dataType></topic></data_reader></dds>";
      ReaderXml(topic, typeName) == x <==> |x| <= 320
  {
    var a: Text := "<dds><data_reader><topic>" + "<kind>NO_KEY</kind><name>";
    FormatCompleteExactly(320, [a, topic, "</name><dataType>", typeName, "</dataType></topic></data_reader></dds>"]);
    FivePieces(a, topic, "</name><dataType>", typeName, "</dataType></topic></data_reader></dds>");
  }

  /** The two entities that every node has under one name. */
  lemma FixedXmlTexts()
    ensures PublisherXml() == "<dds><publisher><name>" + "MyPublisher" + "</name></publisher></dds>"
    ensures SubscriberXml() == "<dds><subscriber><name>" + "MySubscriber" + "</name></subscriber></dds>"
  {
  }
}
