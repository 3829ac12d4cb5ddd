/**
 * The downloads manifest: a YAML-flavoured block sequence kept as plain
 * text. Each upload appends one item with four keys; the text before it is
 * never touched.
 */
module Downloads {

  import opened Wrappers
  import opened Lines
  import Paths

  /** One upload record of the manifest. */
  datatype Entry = Entry(date: string, releaseType: string, name: string, bucketPath: string)

  /** Line prefixes of an item: one space before the dash, three before the sibling keys. */
  const DateKey: string := " - date: "
  const TypeKey: string := "   type: "
  const NameKey: string := "   name: "
  const PathKey: string := "   bucketPath: "

  /** The record for an upload of `bucketFile` at time `date`. */
  function NewEntry(releaseType: string, bucketFile: string, date: string): Entry
  {
    Entry(date, releaseType, Paths.Basename(bucketFile), bucketFile)
  }

  /** The lines of an item: a blank one, then one per key. */
  function EntryLines(e: Entry): seq<string>
  {
    [[], DateKey + e.date, TypeKey + e.releaseType, NameKey + e.name, PathKey + e.bucketPath]
  }

  /** The serialised item: its lines, each ending with a newline. */
  function EntryText(e: Entry): string
  {
    JoinLines(EntryLines(e))
  }

  /** The manifest text after recording an upload of `bucketFile`. */
  function UpdateDownloadsYml(releaseType: string, bucketFile: string, oldDownloads: string, date: string): (r: string)
    ensures oldDownloads <= r
    ensures [NL] + DateKey + date + [NL] <= r[|oldDownloads|..]
    ensures Terminated(r)
  {
    var entry := EntryText(NewEntry(releaseType, bucketFile, date));
    EntryStartsWithDate(NewEntry(releaseType, bucketFile, date));
    AppendKeepsPrefix(oldDownloads, entry, [NL] + DateKey + date + [NL]);
    assert (oldDownloads + entry)[|oldDownloads|..] == entry;
    oldDownloads + entry
  }

  /**
   * The exact text of the new manifest, for every field value: the old
   * text, a newline, then the date, type, name and bucketPath lines, each
   * with its terminator. Line breaks inside the fields change nothing here.
   */
  lemma UpdateLayout(releaseType: string, bucketFile: string, oldDownloads: string, date: string)
    ensures UpdateDownloadsYml(releaseType, bucketFile, oldDownloads, date)
         == oldDownloads + ([NL] + (DateKey + date + [NL] + (TypeKey + releaseType + [NL]
              + (NameKey + Paths.Basename(bucketFile) + [NL] + (PathKey + bucketFile + [NL])))))
  {
    var e := NewEntry(releaseType, bucketFile, date);
    JoinFive([], DateKey + date, TypeKey + releaseType, NameKey + e.name, PathKey + bucketFile);
    assert [] + [NL] == [NL];
  }

  /** Five lines join to each line followed by its terminator, in order. */
  lemma JoinFive(a: string, b: string, c: string, d: string, e: string)
    ensures JoinLines([a, b, c, d, e]) == a + [NL] + (b + [NL] + (c + [NL] + (d + [NL] + (e + [NL]))))
  {
    assert [e][1..] == [];
    assert JoinLines([e]) == e + [NL] + [] == e + [NL];
    assert [d, e][1..] == [e];
    assert JoinLines([d, e]) == d + [NL] + JoinLines([e]);
    assert [c, d, e][1..] == [d, e];
    assert JoinLines([c, d, e]) == c + [NL] + JoinLines([d, e]);
    assert [b, c, d, e][1..] == [c, d, e];
    assert JoinLines([b, c, d, e]) == b + [NL] + JoinLines([c, d, e]);
    assert [a, b, c, d, e][1..] == [b, c, d, e];
  }

  /** An item opens with a blank line and the date line, and ends with a newline. */
  lemma EntryStartsWithDate(e: Entry)
    ensures [NL] + DateKey + e.date + [NL] <= EntryText(e)
    ensures Terminated(EntryText(e))
  {
    var ls := EntryLines(e);
    var rest := JoinLines(ls[2..]);
    assert ls[1..][1..] == ls[2..];
    assert JoinLines(ls[1..]) == ls[1] + [NL] + rest;
    assert JoinLines(ls) == [] + [NL] + JoinLines(ls[1..]);
    var head := [NL] + DateKey + e.date + [NL];
    assert EntryText(e) == head + rest;
    assert (head + rest)[..|head|] == head;
  }

  /** Appending `b` to `a` keeps `a` in front and `b`'s own prefix and ending after it. */
  lemma AppendKeepsPrefix(a: string, b: string, p: string)
    requires p <= b && Terminated(b) && b != []
    ensures a <= a + b && p <= (a + b)[|a|..] && Terminated(a + b)
  {
    assert (a + b)[..|a|] == a;
    assert (a + b)[|a|..] == b;
  }

  /** Reads the four key lines of an item back into a record. */
  function ParseItem(lines: seq<string>): (r: Option<Entry>)
    ensures r.Some? ==> lines == [DateKey + r.value.date, TypeKey + r.value.releaseType,
                                  NameKey + r.value.name, PathKey + r.value.bucketPath]
  {
    if |lines| == 4 && DateKey <= lines[0] && TypeKey <= lines[1]
                    && NameKey <= lines[2] && PathKey <= lines[3]
    then
      assert lines[0] == DateKey + lines[0][|DateKey|..];
      assert lines[1] == TypeKey + lines[1][|TypeKey|..];
      assert lines[2] == NameKey + lines[2][|NameKey|..];
      assert lines[3] == PathKey + lines[3][|PathKey|..];
      Some(Entry(lines[0][|DateKey|..], lines[1][|TypeKey|..], lines[2][|NameKey|..], lines[3][|PathKey|..]))
    else None
  }

  /** No field of `e` holds a line break. */
  predicate SingleLineFields(e: Entry)
  {
    NL !in e.date && NL !in e.releaseType && NL !in e.name && NL !in e.bucketPath
  }

  /** The four key lines built from a record parse back to that record. */
  lemma ParseItemLines(e: Entry)
    ensures ParseItem([DateKey + e.date, TypeKey + e.releaseType, NameKey + e.name, PathKey + e.bucketPath]) == Some(e)
  {
    assert (DateKey + e.date)[|DateKey|..] == e.date;
    assert (TypeKey + e.releaseType)[|TypeKey|..] == e.releaseType;
    assert (NameKey + e.name)[|NameKey|..] == e.name;
    assert (PathKey + e.bucketPath)[|PathKey|..] == e.bucketPath;
  }

  /** The line prefixes themselves hold no line break. */
  lemma KeysSingleLine()
    ensures NL !in DateKey && NL !in TypeKey && NL !in NameKey && NL !in PathKey
  {
  }

  /** Splitting an item's text, with or without its blank line, gives back its lines. */
  lemma EntrySplits(e: Entry)
    requires SingleLineFields(e)
    ensures SplitLines(EntryText(e)) == EntryLines(e)
    ensures EntryText(e) == [NL] + JoinLines(EntryLines(e)[1..])
    ensures SplitLines(JoinLines(EntryLines(e)[1..])) == EntryLines(e)[1..]
  {
    EntryLinesSingle(e);
    var ls := EntryLines(e);
    SplitJoin(ls);
    SplitJoin(ls[1..]);
    assert ls[0] == [];
  }

  /** Every line of an item with single-line fields is itself free of line breaks. */
  lemma EntryLinesSingle(e: Entry)
    requires SingleLineFields(e)
    ensures forall k :: 0 <= k < |EntryLines(e)| ==> NL !in EntryLines(e)[k]
    ensures forall k :: 0 <= k < |EntryLines(e)[1..]| ==> NL !in EntryLines(e)[1..][k]
  {
    KeysSingleLine();
  }

  /**
   * An item is exactly five lines: a blank one, then the date, type, name
   * and bucketPath lines, which parse back to the record.
   */
  lemma EntryRoundTrip(e: Entry)
    requires SingleLineFields(e)
    ensures |SplitLines(EntryText(e))| == 5
    ensures SplitLines(EntryText(e))[0] == []
    ensures ParseItem(SplitLines(EntryText(e))[1..]) == Some(e)
  {
    EntrySplits(e);
    assert EntryLines(e)[1..] == [DateKey + e.date, TypeKey + e.releaseType, NameKey + e.name, PathKey + e.bucketPath];
    ParseItemLines(e);
  }

  /** A basename is a slice of its key, so it has no line break when the key has none. */
  lemma BasenameSingleLine(key: string)
    requires NL !in key
    ensures NL !in Paths.Basename(key)
  {
    var i, j :| Paths.SegmentAt(key, Paths.Basename(key), i, j);
    forall k | 0 <= k < j - i
      ensures key[i..j][k] != NL
    {
      assert key[i..j][k] == key[i + k];
    }
  }

  /**
   * Appending an upload keeps every line of the old manifest and adds the
   * item's lines after them. On terminated text the item's blank line
   * separates it; on unterminated text that newline closes the old last
   * line instead. The last four lines always parse back to the record.
   */
  lemma AppendedLines(releaseType: string, bucketFile: string, oldDownloads: string, date: string)
    requires NL !in releaseType && NL !in bucketFile && NL !in date
    ensures var before := SplitLines(oldDownloads);
            var after := SplitLines(UpdateDownloadsYml(releaseType, bucketFile, oldDownloads, date));
            && |after| == |before| + (if Terminated(oldDownloads) then 5 else 4)
            && after[..|before|] == before
            && (Terminated(oldDownloads) ==> after[|before|] == [])
            && ParseItem(after[|after| - 4..]) == Some(NewEntry(releaseType, bucketFile, date))
  {
    var e := NewEntry(releaseType, bucketFile, date);
    BasenameSingleLine(bucketFile);
    assert UpdateDownloadsYml(releaseType, bucketFile, oldDownloads, date) == oldDownloads + EntryText(e);
    AppendedLinesOf(oldDownloads, e);
  }

  /** AppendedLines for a given record. */
  lemma AppendedLinesOf(text: string, e: Entry)
    requires SingleLineFields(e)
    ensures var before := SplitLines(text);
            var after := SplitLines(text + EntryText(e));
            && |after| == |before| + (if Terminated(text) then 5 else 4)
            && after[..|before|] == before
            && (Terminated(text) ==> after[|before|] == [])
            && ParseItem(after[|after| - 4..]) == Some(e)
  {
    var ls := EntryLines(e);
    var item := [DateKey + e.date, TypeKey + e.releaseType, NameKey + e.name, PathKey + e.bucketPath];
    assert ls == [[]] + item;
    ParseItemLines(e);
    AppendEntry(text, e);
    var before := SplitLines(text);
    var added := if Terminated(text) then ls else item;
    assert added[|added| - 4..] == item;
    TailOfAppend(before, added, 4);
  }

  /** Appending keeps the front, and the last elements come from the appended part. */
  lemma TailOfAppend<T>(xs: seq<T>, ys: seq<T>, n: nat)
    requires n <= |ys|
    ensures (xs + ys)[..|xs|] == xs
    ensures (xs + ys)[|xs + ys| - n..] == ys[|ys| - n..]
  {
  }

  /** The lines of a manifest with an item appended, on terminated and unterminated text. */
  lemma AppendEntry(text: string, e: Entry)
    requires SingleLineFields(e)
    ensures SplitLines(text + EntryText(e))
         == SplitLines(text) + (if Terminated(text) then EntryLines(e) else EntryLines(e)[1..])
  {
    EntrySplits(e);
    if Terminated(text) {
      SplitAppend(text, EntryText(e));
    } else {
      var body := JoinLines(EntryLines(e)[1..]);
      assert text + EntryText(e) == (text + [NL]) + body;
      SplitAppend(text + [NL], body);
      CloseLastLine(text);
    }
  }

  /**
   * The whole new text for an upload of `dir/file` to a terminated
   * manifest: its old lines, the blank line, and the four key lines, where
   * the name is `file` alone.
   */
  lemma UploadIntoDirectory(releaseType: string, dir: string, file: string, oldDownloads: string, date: string)
    requires Terminated(oldDownloads)
    requires NL !in releaseType && NL !in dir && NL !in file && NL !in date
    requires Paths.Sep !in file && file != []
    ensures UpdateDownloadsYml(releaseType, dir + [Paths.Sep] + file, oldDownloads, date)
         == JoinLines(SplitLines(oldDownloads)
                      + ["", DateKey + date, TypeKey + releaseType, NameKey + file, PathKey + (dir + [Paths.Sep] + file)])
  {
    var key := dir + [Paths.Sep] + file;
    Paths.BasenameOfJoin(dir, file);
    var e := Entry(date, releaseType, file, key);
    assert NewEntry(releaseType, key, date) == e;
    assert NL !in key;
    AppendEntry(oldDownloads, e);
    var r := oldDownloads + EntryText(e);
    assert SplitLines(r) == SplitLines(oldDownloads) + EntryLines(e);
    JoinSplit(r);
  }
}
