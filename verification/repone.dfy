/** The RepOne telemetry codec: one characteristic notification becomes one
    repetition record. */
module RepOne {
  import opened Wrappers
  import opened Text
  import opened Types

  /** The characteristic value as handed to the decoder. `NoValue` is a value
      that is `null`, `undefined` or the empty string; `Value` carries the
      bytes its base64 text decodes to. */
  datatype Payload = NoValue | Value(bytes: seq<byte>)

  /** What one decode attempt produces: no record for a missing value, the
      error a 16-bit view of an odd number of bytes throws, or a record
      together with the log line written while decoding. */
  datatype Decoded = NoRep | Malformed(message: string) | Decoded(rep: Rep, line: string)

  /** Message of the error thrown when a 16-bit view is taken over an odd
      number of bytes (its exact wording depends on the JavaScript engine). */
  const OddLengthMessage: string := "byte length of Uint16Array should be a multiple of 2"

  /** Little-endian 16-bit word from a low and a high byte. */
  function Word(lo: byte, hi: byte): u16 {
    lo + 0x100 * hi
  }

  /** The 16-bit view of an even number of bytes, in platform (little-endian)
      byte order. */
  function Words(b: seq<byte>): (w: seq<u16>)
    requires |b| % 2 == 0
    ensures |w| == |b| / 2
  {
    seq(|b| / 2, k requires 0 <= k < |b| / 2 => Word(b[2 * k], b[2 * k + 1]))
  }

  /** The bytes of a sequence of words, low byte first: the sensor's side of the wire. */
  function WordBytes(w: seq<u16>): (b: seq<byte>)
    ensures |b| == 2 * |w|
  {
    if |w| == 0 then [] else [w[0] % 0x100, w[0] / 0x100] + WordBytes(w[1..])
  }

  /** Element `k` of a typed array: `undefined` past its end. */
  function At(w: seq<u16>, k: nat): (r: Option<u16>)
    ensures r.Some? <==> k < |w|
    ensures r.Some? ==> r.value == w[k]
  {
    if k < |w| then Some(w[k]) else None
  }

  /** One entry of the JSON text: the word's index in quotes, a colon and
      the word's decimal value. */
  function JsonEntry(k: nat, v: u16): string {
    "\"" + NatToString(k) + "\":" + NatToString(v)
  }

  /** `JSON.stringify` of a 16-bit typed array: `{"0":w0,"1":w1,...}`. The
      text is braced; `WordsJsonListsEveryWord` shows it lists every word
      under its index. */
  function WordsJson(w: seq<u16>): (json: string)
    ensures |json| >= 2 && json[0] == '{' && json[|json| - 1] == '}'
    ensures |w| == 0 ==> json == "{}"
  {
    "{" + JsonEntries(w, 0) + "}"
  }

  /** The log line lists every word, as `"k":value`, under its index. */
  lemma WordsJsonListsEveryWord(w: seq<u16>)
    ensures forall k :: 0 <= k < |w| ==> Contains(WordsJson(w), JsonEntry(k, w[k]))
  {
    JsonEntriesListEvery(w, 0);
    forall k | 0 <= k < |w|
      ensures Contains(WordsJson(w), JsonEntry(k, w[k]))
    {
      ContainsInContext("{", JsonEntries(w, 0), "}", JsonEntry(k, w[k]));
    }
  }

  function JsonEntries(w: seq<u16>, from: nat): string
    decreases |w| - from
  {
    if from >= |w| then ""
    else (if from == 0 then "" else ",") + JsonEntry(from, w[from]) + JsonEntries(w, from + 1)
  }

  /** The entries from position `from` on list every word from there. */
  lemma {:induction false} JsonEntriesListEvery(w: seq<u16>, from: nat)
    ensures forall k :: from <= k < |w| ==> Contains(JsonEntries(w, from), JsonEntry(k, w[k]))
    decreases |w| - from
  {
    if from < |w| {
      var sep := if from == 0 then "" else ",";
      var tail := JsonEntries(w, from + 1);
      JsonEntriesListEvery(w, from + 1);
      forall k | from <= k < |w|
        ensures Contains(JsonEntries(w, from), JsonEntry(k, w[k]))
      {
        var e := JsonEntry(k, w[k]);
        if k == from {
          assert OccursAt(e, e, 0);
          ContainsInContext(sep, e, tail, e);
        } else {
          ContainsInContext(sep + JsonEntry(from, w[from]), tail, "", e);
          assert sep + JsonEntry(from, w[from]) + tail + "" == JsonEntries(w, from);
        }
      }
    }
  }

  /** The record built from a typed array: word `k` goes to wire position
      `k`, and a missing word leaves its field absent. */
  function RepOfWords(data: seq<u16>, now: int): (rep: Rep)
    ensures rep.recordedAt == now
    ensures forall k :: 0 <= k < 10 ==> Field(rep, k) == At(data, k)
  {
    Rep(deviceRepId := At(data, 0),
        repNumber := At(data, 1),
        averageVelocity := At(data, 2),
        rom := At(data, 3),
        peakVelocity := At(data, 4),
        peakHeight := At(data, 5),
        duration := At(data, 6),
        other1 := At(data, 7),
        other2 := At(data, 8),
        other3 := At(data, 9),
        recordedAt := now)
  }

  /** `getRepDataFromChar`: decodes a characteristic value received at clock
      value `now`. The words are mapped positionally onto the record; words
      past the tenth are ignored and missing ones are absent. */
  function GetRepDataFromChar(p: Payload, now: int): (d: Decoded)
    ensures p.NoValue? <==> d.NoRep?
    ensures d.Malformed? <==> p.Value? && |p.bytes| % 2 == 1
    ensures d.Malformed? ==> d.message == OddLengthMessage
    ensures d.Decoded? ==> d.rep.recordedAt == now
    ensures d.Decoded? ==> forall k :: 0 <= k < 10 ==>
      Field(d.rep, k) == (if 2 * k + 1 < |p.bytes| then Some(Word(p.bytes[2 * k], p.bytes[2 * k + 1])) else None)
    ensures d.Decoded? ==> d.line == WordsJson(Words(p.bytes))
  {
    match p
    case NoValue => NoRep
    case Value(bytes) =>
      if |bytes| % 2 == 1 then Malformed(OddLengthMessage)
      else
        var data := Words(bytes);
        var rep := RepOfWords(data, now);
        assert forall k :: 0 <= k < 10 ==>
          Field(rep, k) == (if 2 * k + 1 < |bytes| then Some(Word(bytes[2 * k], bytes[2 * k + 1])) else None) by {
          forall k | 0 <= k < 10
            ensures Field(rep, k) == (if 2 * k + 1 < |bytes| then Some(Word(bytes[2 * k], bytes[2 * k + 1])) else None)
          {
            assert Field(rep, k) == At(data, k);
          }
        }
        Decoded(rep, WordsJson(data))
  }

  /** Decoding the bytes a sequence of words is sent as gives back those words. */
  lemma {:induction false} WordsOfWordBytes(w: seq<u16>)
    ensures Words(WordBytes(w)) == w
  {
    if |w| > 0 {
      WordsOfWordBytes(w[1..]);
      var b := WordBytes(w);
      assert b == [w[0] % 0x100, w[0] / 0x100] + WordBytes(w[1..]);
      forall k | 0 <= k < |w|
        ensures Words(b)[k] == w[k]
      {
        if k > 0 {
          assert b[2 * k] == WordBytes(w[1..])[2 * (k - 1)];
          assert b[2 * k + 1] == WordBytes(w[1..])[2 * (k - 1) + 1];
          assert Words(WordBytes(w[1..]))[k - 1] == w[1..][k - 1];
        }
      }
    }
  }

  /** Every even-length byte string is what some word sequence is sent as. */
  lemma {:induction false} WordBytesOfWords(b: seq<byte>)
    requires |b| % 2 == 0
    ensures WordBytes(Words(b)) == b
    decreases |b|
  {
    if |b| > 0 {
      WordBytesOfWords(b[2..]);
      WordBytesOfWordsStep(b);
    }
  }

  /** One step of the above: the first word gives back the first two bytes
      and the rest of the words are the view of the rest of the bytes. */
  lemma WordBytesOfWordsStep(b: seq<byte>)
    requires |b| >= 2 && |b| % 2 == 0
    ensures WordBytes(Words(b)) == [b[0], b[1]] + WordBytes(Words(b[2..]))
  {
    var w := Words(b);
    assert w[0] == Word(b[0], b[1]);
    assert w[0] % 0x100 == b[0] && w[0] / 0x100 == b[1];
    assert w[1..] == Words(b[2..]);
  }

  /** A full 20-byte notification sent for a record decodes back to that
      record's measurements, stamped with the receiver's clock. */
  lemma FullPayloadRoundTrip(w: seq<u16>, now: int)
    requires |w| == 10
    ensures GetRepDataFromChar(Value(WordBytes(w)), now).Decoded?
    ensures forall k :: 0 <= k < 10 ==> Field(GetRepDataFromChar(Value(WordBytes(w)), now).rep, k) == Some(w[k])
  {
    WordsOfWordBytes(w);
  }

  /** The record only looks at the first ten words. */
  lemma RepOfWordsFirstTen(longer: seq<u16>, data: seq<u16>, now: int)
    requires |data| == 10 && |longer| >= 10 && longer[..10] == data
    ensures RepOfWords(longer, now) == RepOfWords(data, now)
  {
    forall k | 0 <= k < 10
      ensures At(longer, k) == At(data, k)
    {
      assert longer[k] == longer[..10][k];
    }
  }

  /** Bytes appended to an even-length payload only append words. */
  lemma WordsOfLonger(b: seq<byte>, extra: seq<byte>)
    requires |b| % 2 == 0 && |extra| % 2 == 0
    ensures Words(b + extra)[..|b| / 2] == Words(b)
  {
    forall k | 0 <= k < |b| / 2
      ensures Words(b + extra)[k] == Words(b)[k]
    {
      assert (b + extra)[2 * k] == b[2 * k];
      assert (b + extra)[2 * k + 1] == b[2 * k + 1];
    }
  }

  /** An even-length payload decodes to the record of its words. */
  lemma DecodesToRepOfWords(b: seq<byte>, now: int)
    requires |b| % 2 == 0
    ensures GetRepDataFromChar(Value(b), now) == Decoded(RepOfWords(Words(b), now), WordsJson(Words(b)))
  {
  }

  /** A payload shorter than ten words leaves the last measurement absent. */
  lemma ShortPayloadLeavesOther3Absent(b: seq<byte>, now: int)
    requires |b| % 2 == 0 && |b| < 20
    ensures GetRepDataFromChar(Value(b), now).rep.other3 == None
  {
    DecodesToRepOfWords(b, now);
    assert Field(RepOfWords(Words(b), now), 9) == None;
  }

  /** Words past the tenth never change the record. */
  lemma LongPayloadIgnoresTail(b: seq<byte>, extra: seq<byte>, now: int)
    requires |b| == 20 && |extra| % 2 == 0
    ensures GetRepDataFromChar(Value(b + extra), now).rep == GetRepDataFromChar(Value(b), now).rep
  {
    DecodesToRepOfWords(b, now);
    DecodesToRepOfWords(b + extra, now);
    WordsOfLonger(b, extra);
    RepOfWordsFirstTen(Words(b + extra), Words(b), now);
  }
}
