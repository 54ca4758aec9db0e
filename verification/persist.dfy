/**
 The persisted index, at the level of words rather than bytes: a header
 (signature, version, entry count), the entries in sorted order (fixed
 stat fields, then a length-delimited path), opaque extension blocks
 (tag, length, data) carried verbatim, and a trailing checksum over all
 of it. Decoding validates each part and reports what is wrong.
 */
module Persistence {
  import opened Types
  import opened IndexStore

  type Word = nat

  datatype Extension = Extension(tag: Word, data: seq<Word>)

  /** Everything an index file holds. */
  datatype IndexFile = IndexFile(entries: seq<Entry>, extensions: seq<Extension>)

  const Signature: Word := 0x4449_5243   // "DIRC"
  const Version: Word := 2
  const ChecksumModulus: nat := 0x1_0000_0000
  /** Number of fixed-size words before an entry's path. */
  const EntryFixedWords: nat := 14

  /** Stand-in for the trailing content hash: a 32-bit additive checksum. */
  function Checksum(w: seq<Word>): (c: Word)
    ensures c < ChecksumModulus
  {
    if w == [] then 0 else (w[0] + Checksum(w[1..])) % ChecksumModulus
  }

  // ---------------------------------------------------------------------
  // Paths as words

  predicate IsCharCode(n: Word)
  {
    n < 0xD800 || (0xE000 <= n < 0x11_0000)
  }

  function CharsToWords(s: string): (w: seq<Word>)
    ensures |w| == |s|
  {
    if s == [] then [] else [s[0] as Word] + CharsToWords(s[1..])
  }

  function WordsToChars(w: seq<Word>): Option<string>
  {
    if w == [] then Some([])
    else if !IsCharCode(w[0]) then None
    else
      match WordsToChars(w[1..])
      case None => None
      case Some(rest) => Some([w[0] as char] + rest)
  }

  lemma {:induction false} CharsRoundTrip(s: string)
    ensures WordsToChars(CharsToWords(s)) == Some(s)
  {
    if s != [] {
      var w := CharsToWords(s);
      assert w[1..] == CharsToWords(s[1..]);
      CharsRoundTrip(s[1..]);
      assert s == [s[0]] + s[1..];
    }
  }

  // ---------------------------------------------------------------------
  // Encoding

  function EncodeEntry(e: Entry): (w: seq<Word>)
    ensures |w| == EntryFixedWords + |e.path|
  {
    [ e.stat.ctime.seconds, e.stat.ctime.nanoseconds,
      e.stat.mtime.seconds, e.stat.mtime.nanoseconds,
      e.stat.dev, e.stat.ino, e.mode, e.stat.uid, e.stat.gid,
      e.fileSize, e.id, e.stat.flags, e.stage, |e.path| ]
    + CharsToWords(e.path)
  }

  function EncodeEntries(es: seq<Entry>): seq<Word>
  {
    if es == [] then [] else EncodeEntry(es[0]) + EncodeEntries(es[1..])
  }

  function EncodeExtensions(xs: seq<Extension>): seq<Word>
  {
    if xs == [] then [] else [xs[0].tag, |xs[0].data|] + xs[0].data + EncodeExtensions(xs[1..])
  }

  function Body(f: IndexFile): seq<Word>
  {
    [Signature, Version, |f.entries|] + EncodeEntries(f.entries) + EncodeExtensions(f.extensions)
  }

  /** The file image: header, entries, extensions, then the checksum of all that. */
  function Encode(f: IndexFile): seq<Word>
  {
    var body := Body(f);
    body + [Checksum(body)]
  }

  // ---------------------------------------------------------------------
  // Decoding

  function ParseEntry(w: seq<Word>): Result<(Entry, seq<Word>)>
  {
    if |w| < EntryFixedWords then Failure(Corrupt)
    else
      var n := w[13];
      if |w| < EntryFixedWords + n || w[12] > 3 then Failure(Corrupt)
      else
        match WordsToChars(w[EntryFixedWords..EntryFixedWords + n])
        case None => Failure(Corrupt)
        case Some(path) =>
          var stat := StatCache(Time(w[0], w[1]), Time(w[2], w[3]), w[4], w[5], w[7], w[8], w[11]);
          Success((Entry(path, w[12], w[10], w[6], w[9], stat), w[EntryFixedWords + n..]))
  }

  function ParseEntries(w: seq<Word>, count: nat): (r: Result<(seq<Entry>, seq<Word>)>)
    ensures r.Failure? ==> r.error == Corrupt
    decreases count
  {
    if count == 0 then Success(([], w))
    else
      match ParseEntry(w)
      case Failure(err) => Failure(err)
      case Success((e, rest)) =>
        match ParseEntries(rest, count - 1)
        case Failure(err) => Failure(err)
        case Success((es, tail)) => Success(([e] + es, tail))
  }

  function ParseExtensions(w: seq<Word>): (r: Result<seq<Extension>>)
    ensures r.Failure? ==> r.error == Corrupt
    decreases |w|
  {
    if w == [] then Success([])
    else if |w| < 2 || |w| < 2 + w[1] then Failure(Corrupt)
    else
      match ParseExtensions(w[2 + w[1]..])
      case Failure(err) => Failure(err)
      case Success(xs) => Success([Extension(w[0], w[2..2 + w[1]])] + xs)
  }

  /**
   Reading an index file back: a foreign signature or version is
   UnsupportedVersion; a short file, a bad checksum, a malformed entry, a
   truncated extension and out-of-order entries are Corrupt.
   */
  function Decode(w: seq<Word>): (r: Result<IndexFile>)
    ensures r.Success? ==> |w| >= 4 && w[0] == Signature && w[1] == Version
    ensures r.Success? ==> Checksum(w[..|w| - 1]) == w[|w| - 1]
    ensures r.Success? ==> Sorted(r.value.entries) && |r.value.entries| == w[2]
    ensures |w| >= 4 && (w[0] != Signature || w[1] != Version) ==> r == Failure(UnsupportedVersion)
    ensures |w| >= 4 && w[0] == Signature && w[1] == Version && Checksum(w[..|w| - 1]) != w[|w| - 1]
      ==> r == Failure(Corrupt)
    ensures r.Failure? && !(|w| >= 4 && (w[0] != Signature || w[1] != Version)) ==> r.error == Corrupt
  {
    if |w| < 4 then Failure(Corrupt)
    else if w[0] != Signature || w[1] != Version then Failure(UnsupportedVersion)
    else
      var body := w[..|w| - 1];
      if Checksum(body) != w[|w| - 1] then Failure(Corrupt)
      else
        match ParseEntries(body[3..], w[2])
        case Failure(err) => Failure(err)
        case Success((es, rest)) =>
          ParseEntriesCount(body[3..], w[2]);
          match ParseExtensions(rest)
          case Failure(err) => Failure(err)
          case Success(xs) =>
            if !Sorted(es) then Failure(Corrupt) else Success(IndexFile(es, xs))
  }

  lemma {:induction false} ParseEntriesCount(w: seq<Word>, count: nat)
    ensures ParseEntries(w, count).Success? ==> |ParseEntries(w, count).value.0| == count
    decreases count
  {
    if count > 0 && ParseEntry(w).Success? {
      ParseEntriesCount(ParseEntry(w).value.1, count - 1);
    }
  }

  // ---------------------------------------------------------------------
  // Round trip

  lemma ParseEncodedEntry(e: Entry, rest: seq<Word>)
    ensures ParseEntry(EncodeEntry(e) + rest) == Success((e, rest))
  {
    var w := EncodeEntry(e) + rest;
    var n := |e.path|;
    assert w[13] == n;
    assert w[EntryFixedWords..EntryFixedWords + n] == CharsToWords(e.path);
    CharsRoundTrip(e.path);
    assert w[EntryFixedWords + n..] == rest;
  }

  /** One step of `ParseEntries`: an entry, then the rest of the count. */
  lemma ParseEntriesCons(w: seq<Word>, count: nat, e: Entry, rest: seq<Word>, es: seq<Entry>, tail: seq<Word>)
    requires count > 0 && ParseEntry(w) == Success((e, rest))
    requires ParseEntries(rest, count - 1) == Success((es, tail))
    ensures ParseEntries(w, count) == Success(([e] + es, tail))
  {
  }

  lemma {:induction false} ParseEncodedEntries(es: seq<Entry>, rest: seq<Word>)
    ensures ParseEntries(EncodeEntries(es) + rest, |es|) == Success((es, rest))
  {
    if es != [] {
      var tail := EncodeEntries(es[1..]) + rest;
      assert EncodeEntries(es) + rest == EncodeEntry(es[0]) + tail;
      ParseEncodedEntry(es[0], tail);
      ParseEncodedEntries(es[1..], rest);
      ParseEntriesCons(EncodeEntry(es[0]) + tail, |es|, es[0], tail, es[1..], rest);
      assert es == [es[0]] + es[1..];
    } else {
      assert EncodeEntries(es) + rest == rest;
    }
  }

  lemma {:induction false} ParseEncodedExtensions(xs: seq<Extension>)
    ensures ParseExtensions(EncodeExtensions(xs)) == Success(xs)
  {
    if xs != [] {
      var w := EncodeExtensions(xs);
      var x := xs[0];
      assert w == [x.tag, |x.data|] + x.data + EncodeExtensions(xs[1..]);
      assert w[2..2 + |x.data|] == x.data;
      assert w[2 + |x.data|..] == EncodeExtensions(xs[1..]);
      ParseEncodedExtensions(xs[1..]);
      assert xs == [x] + xs[1..];
    }
  }

  /** Writing a sorted index and reading it back gives the same entries and extensions. */
  lemma DecodeEncode(f: IndexFile)
    requires Sorted(f.entries)
    ensures Decode(Encode(f)) == Success(f)
  {
    var w := Encode(f);
    var body := Body(f);
    assert w[..|w| - 1] == body;
    var payload := EncodeEntries(f.entries) + EncodeExtensions(f.extensions);
    assert body[3..] == payload;
    ParseEncodedEntries(f.entries, EncodeExtensions(f.extensions));
    ParseEncodedExtensions(f.extensions);
  }
}
