/**
 * The two pieces of pure logic in the HTTP server: `serialize_doc`, which
 * turns the ObjectId values of a stored document into strings before it is
 * returned, and the filename rule of the audio upload route.
 */
module Server {
  import opened Text

  // ---------------------------------------------------------------------
  // Documents
  // ---------------------------------------------------------------------

  /**
   * A stored document as the driver hands it over: `None`, an ObjectId (by
   * its hexadecimal string form), a string, a dict (its entries in
   * insertion order), a list, or any other scalar.
   */
  datatype Value =
    | Null
    | OId(hex: string)
    | Str(s: string)
    | Dict(entries: seq<Entry>)
    | List(items: seq<Value>)
    | Other(repr: string)

  datatype Entry = Entry(key: string, value: Value)

  /** The keys of a dict's entries, in order. */
  function Keys(entries: seq<Entry>): (ks: seq<string>)
    ensures |ks| == |entries|
    ensures forall i :: 0 <= i < |entries| ==> ks[i] == entries[i].key
  {
    seq(|entries|, i requires 0 <= i < |entries| => entries[i].key)
  }

  /**
   * What the dict case of `serialize_doc` stores under a key whose value is
   * `v`: an ObjectId becomes its string, a dict or list is serialized, and
   * anything else stays.
   */
  function Converted(v: Value): (r: Value)
    decreases v, 1
    ensures v.OId? ==> r == Str(v.hex)
    ensures v.Dict? || v.List? ==> r == Serialize(v)
    ensures !v.OId? && !v.Dict? && !v.List? ==> r == v
  {
    match v
    case OId(hex) => Str(hex)
    case Dict(_) => Serialize(v)
    case List(_) => Serialize(v)
    case _ => v
  }

  /**
   * `serialize_doc` as a function of the document. A list maps element by
   * element (a bare ObjectId element therefore stays an ObjectId); a dict
   * keeps its keys in order and converts each value; anything else,
   * `None` included, is returned as it is.
   */
  function Serialize(v: Value): (r: Value)
    decreases v, 0
    ensures v.List? ==>
      (r.List? && |r.items| == |v.items|
       && forall i :: 0 <= i < |v.items| ==> r.items[i] == Serialize(v.items[i]))
    ensures v.Dict? ==>
      (r.Dict? && Keys(r.entries) == Keys(v.entries)
       && forall i :: 0 <= i < |v.entries| ==> r.entries[i].value == Converted(v.entries[i].value))
    ensures !v.List? && !v.Dict? ==> r == v
  {
    match v
    case List(items) =>
      List(seq(|items|, i requires 0 <= i < |items| => Serialize(items[i])))
    case Dict(entries) =>
      Dict(seq(|entries|, i requires 0 <= i < |entries| =>
        Entry(entries[i].key, Converted(entries[i].value))))
    case _ => v
  }

  /**
   * No dict reachable through dicts and lists holds an ObjectId as one of
   * its values (an ObjectId directly inside a list is allowed).
   */
  predicate Clean(v: Value)
  {
    match v
    case List(items) => forall i :: 0 <= i < |items| ==> Clean(items[i])
    case Dict(entries) =>
      forall i :: 0 <= i < |entries| ==> !entries[i].value.OId? && Clean(entries[i].value)
    case _ => true
  }

  /** After `serialize_doc`, no reachable dict holds an ObjectId value. */
  lemma {:induction false} SerializeIsClean(v: Value)
    decreases v
    ensures Clean(Serialize(v))
  {
    match v
    case List(items) =>
      forall i | 0 <= i < |items|
        ensures Clean(Serialize(v).items[i])
      {
        assert items[i] in items;
        SerializeIsClean(items[i]);
      }
    case Dict(entries) =>
      var r := Serialize(v);
      forall i | 0 <= i < |entries|
        ensures !r.entries[i].value.OId? && Clean(r.entries[i].value)
      {
        assert entries[i] in entries;
        var x := entries[i].value;
        if x.Dict? || x.List? {
          SerializeIsClean(x);
        }
      }
    case _ =>
  }

  /** A document with no ObjectId left in a dict is returned as it is. */
  lemma {:induction false} SerializeKeepsClean(v: Value)
    decreases v
    requires Clean(v)
    ensures Serialize(v) == v
  {
    match v
    case List(items) =>
      var r := Serialize(v);
      forall i | 0 <= i < |items|
        ensures r.items[i] == items[i]
      {
        assert items[i] in items;
        SerializeKeepsClean(items[i]);
      }
      assert r.items == items;
    case Dict(entries) =>
      var r := Serialize(v);
      forall i | 0 <= i < |entries|
        ensures r.entries[i] == entries[i]
      {
        assert entries[i] in entries;
        var x := entries[i].value;
        if x.Dict? || x.List? {
          SerializeKeepsClean(x);
        }
        assert Keys(r.entries)[i] == Keys(entries)[i];
      }
      assert r.entries == entries;
    case _ =>
  }

  /**
   * Serializing twice is serializing once, so handing back the very object
   * the dict case rewrote in place does no harm if it is serialized again.
   */
  lemma SerializeIdempotent(v: Value)
    ensures Serialize(Serialize(v)) == Serialize(v)
  {
    SerializeIsClean(v);
    SerializeKeepsClean(Serialize(v));
  }

  /**
   * `serialize_doc` as the code runs it: the list case builds a new list
   * from the serialized elements; the dict case walks the entries and
   * overwrites the value stored under each key as it goes.
   */
  method SerializeDoc(doc: Value) returns (r: Value)
    decreases doc
    ensures r == Serialize(doc)
  {
    match doc {
      case List(items) =>
        var out: seq<Value> := [];
        var i := 0;
        while i < |items|
          invariant 0 <= i <= |items|
          invariant |out| == i
          invariant forall k :: 0 <= k < i ==> out[k] == Serialize(items[k])
        {
          assert items[i] in items;
          var x := SerializeDoc(items[i]);
          out := out + [x];
          i := i + 1;
        }
        r := List(out);
      case Dict(entries) =>
        var es := entries;
        for i := 0 to |es|
          invariant |es| == |entries|
          invariant forall k :: 0 <= k < i ==> es[k] == Entry(entries[k].key, Converted(entries[k].value))
          invariant forall k :: i <= k < |es| ==> es[k] == entries[k]
        {
          assert entries[i] in entries;
          var value := es[i].value;
          match value {
            case OId(hex) =>
              es := es[i := Entry(es[i].key, Str(hex))];
            case Dict(_) =>
              var x := SerializeDoc(value);
              es := es[i := Entry(es[i].key, x)];
            case List(_) =>
              var x := SerializeDoc(value);
              es := es[i := Entry(es[i].key, x)];
            case _ =>
          }
        }
        r := Dict(es);
      case _ =>
        r := doc;
    }
  }

  // ---------------------------------------------------------------------
  // Audio upload
  // ---------------------------------------------------------------------

  /** The suffixes the upload route accepts, in the order it lists them. */
  const SupportedSuffixes: seq<string> := [".webm", ".wav", ".mp3"]

  /** The formats those suffixes name. */
  const Formats: seq<string> := ["webm", "wav", "mp3"]

  /** `filename.endswith(('.webm', '.wav', '.mp3'))`: the name ends with one of the three suffixes. */
  predicate IsSupportedAudio(filename: string): (b: bool)
    ensures b <==> exists i :: 0 <= i < |SupportedSuffixes| && EndsWith(filename, SupportedSuffixes[i])
  {
    EndsWithAnyIff(filename, SupportedSuffixes);
    EndsWithAny(filename, SupportedSuffixes)
  }

  /** `filename.split('.')[-1]`: the text after the last full stop. */
  function AudioFormat(filename: string): (r: string)
    ensures |r| <= |filename| && r == filename[|filename| - |r|..] && '.' !in r
    ensures '.' in filename ==> |r| < |filename| && filename[|filename| - |r| - 1] == '.'
    ensures '.' !in filename ==> r == filename
  {
    ContainsChar(filename, '.');
    ContainsChar(AfterLast(filename, "."), '.');
    AfterLast(filename, ".")
  }

  /** A name ending in a full stop and a dot-free extension has that extension as its format. */
  lemma FormatOfExtension(filename: string, ext: string)
    requires '.' !in ext
    requires EndsWith(filename, "." + ext)
    ensures AudioFormat(filename) == ext
  {
    var n := |filename|;
    var r := AudioFormat(filename);
    assert filename[n - |ext| - 1] == '.';
    assert forall j :: n - |ext| <= j < n ==> filename[j] == ext[j - (n - |ext|)];
    assert forall j :: n - |r| <= j < n ==> filename[j] == r[j - (n - |r|)];
    assert filename[n - |r| - 1] == '.';
    assert filename[n - |ext|..] == ext;
  }

  /** Each supported suffix is a full stop followed by a dot-free format name. */
  lemma SuffixNamesFormat(i: int)
    requires 0 <= i < 3
    ensures SupportedSuffixes[i] == "." + Formats[i] && '.' !in Formats[i]
  {
  }

  /** The outcome of the checks `upload_audio` makes before it reads the file. */
  datatype Upload =
    | Rejected(status: int, detail: string)
    | Accepted(format: string)

  const RoomNotFound := "Room not found"
  const InvalidFormat := "Invalid audio format. Supported: .webm, .wav, .mp3"

  /**
   * The room must exist (404 otherwise), then the filename must carry a
   * supported suffix (400 otherwise); an accepted upload goes on with the
   * format taken from the filename.
   */
  function ValidateAudioUpload(roomExists: bool, filename: string): (r: Upload)
    ensures !roomExists ==> r == Rejected(404, RoomNotFound)
    ensures roomExists && !IsSupportedAudio(filename) ==> r == Rejected(400, InvalidFormat)
    ensures r.Accepted? <==> roomExists && IsSupportedAudio(filename)
    ensures r.Accepted? ==> r.format == AudioFormat(filename)
  {
    if !roomExists then Rejected(404, RoomNotFound)
    else if !IsSupportedAudio(filename) then Rejected(400, InvalidFormat)
    else Accepted(AudioFormat(filename))
  }

  /**
   * An upload is accepted exactly when the room exists and the name ends
   * with one of the three suffixes, and the format it goes on with is then
   * the matching one of `webm`, `wav` and `mp3`.
   */
  lemma AcceptedFormat(roomExists: bool, filename: string)
    ensures ValidateAudioUpload(roomExists, filename).Accepted? <==>
      roomExists && exists i :: 0 <= i < 3 && EndsWith(filename, SupportedSuffixes[i])
    ensures ValidateAudioUpload(roomExists, filename).Accepted? ==>
      exists i :: 0 <= i < 3 && EndsWith(filename, SupportedSuffixes[i])
        && ValidateAudioUpload(roomExists, filename).format == Formats[i]
  {
    EndsWithAnyIff(filename, SupportedSuffixes);
    if ValidateAudioUpload(roomExists, filename).Accepted? {
      var i :| 0 <= i < 3 && EndsWith(filename, SupportedSuffixes[i]);
      SuffixNamesFormat(i);
      FormatOfExtension(filename, Formats[i]);
    }
  }
}
