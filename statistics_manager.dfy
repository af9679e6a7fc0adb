/**
 * The statistics report of FrontlineSMS: an insertion-ordered list of
 * (key, value) pairs and its two text renderings, the compact SMS form
 * (keyword, then the values separated by commas, composite keys shortened)
 * and the e-mail form (one "key = value" line per entry).
 */
module Statistics {
  import opened Wrappers
  import opened JavaStrings

  /** Separates the i18n key from the id in a composite key. */
  const StatsListKeySeparator: char := ':'
  /** Separates the values in the SMS text. */
  const StatisticsSmsSeparator: char := ','
  /** Separates a shortened composite key from its value in the SMS text. */
  const StatisticsSmsOptionalKeyValueSeparator: char := ':'
  /** The keyword the SMS text starts with, the Greek capital sigma. */
  const StatisticsSmsKeyword: char := '\U{3A3}'

  /** One statistic: its key and its value. */
  type Entry = (string, string)

  /** java.lang.StringIndexOutOfBoundsException raised by substring(beginIndex) on a
      string of the given length. */
  datatype IndexError = StringIndexOutOfBounds(beginIndex: int, length: int)

  /** The keys of the list are pairwise different, as in a map. */
  predicate DistinctKeys(entries: seq<Entry>) {
    forall i, j :: 0 <= i < j < |entries| ==> entries[i].0 != entries[j].0
  }

  /** The position of the entry with key `key`, or -1. */
  function KeyIndex(entries: seq<Entry>, key: string): (k: int)
    ensures -1 <= k < |entries|
    ensures k == -1 <==> forall i :: 0 <= i < |entries| ==> entries[i].0 != key
    ensures k >= 0 ==> entries[k].0 == key
  {
    if |entries| == 0 then -1
    else if entries[|entries| - 1].0 == key then |entries| - 1
    else KeyIndex(entries[..|entries| - 1], key)
  }

  /** Map.get: the value stored under `key`, if any. */
  function Lookup(entries: seq<Entry>, key: string): Option<string> {
    var k := KeyIndex(entries, key);
    if k == -1 then None else Some(entries[k].1)
  }

  /** LinkedHashMap.put: a new key is appended at the end; an existing key keeps its
      position and gets the new value. */
  function Updated(entries: seq<Entry>, key: string, value: string): seq<Entry> {
    var k := KeyIndex(entries, key);
    if k == -1 then entries + [(key, value)] else entries[k := (key, value)]
  }

  /** After a put the key maps to the new value, every other key keeps its value,
      the keys stay distinct, and the earlier entries keep their order. */
  lemma UpdatedLookup(entries: seq<Entry>, key: string, value: string, other: string)
    requires DistinctKeys(entries)
    ensures DistinctKeys(Updated(entries, key, value))
    ensures Lookup(Updated(entries, key, value), key) == Some(value)
    ensures other != key ==> Lookup(Updated(entries, key, value), other) == Lookup(entries, other)
    ensures forall i :: 0 <= i < |entries| ==> Updated(entries, key, value)[i].0 == entries[i].0
  {
    var u := Updated(entries, key, value);
    var k := KeyIndex(entries, key);
    KeyIndexUnique(u, key, if k == -1 then |entries| else k);
    var o := KeyIndex(entries, other);
    if other != key && o != -1 {
      KeyIndexUnique(u, other, o);
    }
  }

  /** In a list with distinct keys, the entry holding a key is the one KeyIndex finds. */
  lemma KeyIndexUnique(entries: seq<Entry>, key: string, i: int)
    requires DistinctKeys(entries) && 0 <= i < |entries| && entries[i].0 == key
    ensures KeyIndex(entries, key) == i
  {
  }

  /** isCompositeKey: whether the key holds the separator between an i18n key and an id. */
  function IsCompositeKey(key: string): (composite: bool)
    ensures composite <==> StatsListKeySeparator in key
  {
    IndexOf(key, StatsListKeySeparator) != -1
  }

  /** splitStatsMapKey: a plain key is returned alone; a composite key is cut with
      String.split at its separators. */
  function SplitStatsMapKey(key: string): (parts: seq<string>)
    ensures !IsCompositeKey(key) ==> parts == [key]
    ensures IsCompositeKey(key) ==>
      |parts| <= |SplitAll(key, StatsListKeySeparator)| && parts == SplitAll(key, StatsListKeySeparator)[..|parts|]
    ensures IsCompositeKey(key) ==>
      forall k :: |parts| <= k < |SplitAll(key, StatsListKeySeparator)| ==> SplitAll(key, StatsListKeySeparator)[k] == ""
    ensures IsCompositeKey(key) ==> |parts| == 0 || parts[|parts| - 1] != ""
    ensures forall k :: 0 <= k < |parts| && IsCompositeKey(key) ==> StatsListKeySeparator !in parts[k]
  {
    SplitAllPartsFree(key, StatsListKeySeparator);
    if !IsCompositeKey(key) then [key] else Split(key, StatsListKeySeparator)
  }

  /** A key that does not end with the separator is rebuilt by joining its parts, and the
      first part of a composite one is the i18n key before the first separator. */
  lemma SplitStatsMapKeyRoundTrip(key: string)
    requires |key| == 0 || key[|key| - 1] != StatsListKeySeparator
    ensures Join(SplitStatsMapKey(key), StatsListKeySeparator) == key
    ensures IsCompositeKey(key) ==>
      |SplitStatsMapKey(key)| >= 2 && SplitStatsMapKey(key)[0] == key[..IndexOf(key, StatsListKeySeparator)]
  {
    if IsCompositeKey(key) {
      JoinSplit(key, StatsListKeySeparator);
      SplitAllLastPart(key, StatsListKeySeparator);
      SplitAllFirstPart(key, StatsListKeySeparator);
      var parts := SplitStatsMapKey(key);
      assert parts == SplitAll(key, StatsListKeySeparator);
      assert |parts[0]| < |key|;
    }
  }

  /** Java's String.split drops trailing empty parts: a key made of separators only
      splits into nothing, and a trailing separator leaves no empty last part. */
  lemma SplitStatsMapKeyExamples()
    ensures SplitStatsMapKey(":") == []
    ensures SplitStatsMapKey("a:b:") == ["a", "b"]
    ensures SplitStatsMapKey(":a") == ["", "a"]
  {
    SplitAllOfPart("", "", ':');
    assert ":" == "" + [':'] + "";
    SplitAllOfPart("b", "", ':');
    assert "b:" == "b" + [':'] + "";
    SplitAllOfPart("a", "b:", ':');
    assert "a:b:" == "a" + [':'] + "b:";
    SplitAllOfPart("a", "", ':');
    SplitAllOfPart("", "a", ':');
    assert ":a" == "" + [':'] + "a";
  }

  /** The short form of a composite key in the SMS text: the (at most two) characters
      right after its first separator. */
  function ShortKey(key: string): (short: string)
    requires StatsListKeySeparator in key
    ensures |short| <= 2
    ensures var b := IndexOf(key, StatsListKeySeparator) + 1;
      b + |short| <= |key| && short == key[b..b + |short|] && (|short| < 2 ==> b + |short| == |key|)
  {
    var b := IndexOf(key, StatsListKeySeparator) + 1;
    key[b..if |key| < b + 2 then |key| else b + 2]
  }

  /** What one entry contributes to the SMS text: its value, preceded by the short key
      and a colon when the key is composite. */
  function SmsSegment(e: Entry): string {
    if IsCompositeKey(e.0) then ShortKey(e.0) + [StatisticsSmsOptionalKeyValueSeparator] + e.1 else e.1
  }

  /** A segment ends with the entry's value. It is the value alone exactly when the key is
      plain; for a composite key the value is preceded by the short key and a colon, so by
      at most three characters. */
  lemma SmsSegmentShape(e: Entry)
    ensures var segment := SmsSegment(e);
      && |e.1| <= |segment| <= |e.1| + 3 && segment[|segment| - |e.1|..] == e.1
      && (segment == e.1 <==> !IsCompositeKey(e.0))
      && (IsCompositeKey(e.0) ==>
            segment[..|segment| - |e.1|] == ShortKey(e.0) + [StatisticsSmsOptionalKeyValueSeparator])
  {
  }

  /** The segments of every entry, in list order. */
  function Segments(entries: seq<Entry>): (segments: seq<string>)
    ensures |segments| == |entries|
  {
    seq(|entries|, i requires 0 <= i < |entries| => SmsSegment(entries[i]))
  }

  /** The segments of one more entry are those before it followed by its own. */
  lemma SegmentsSnoc(entries: seq<Entry>, i: int)
    requires 0 <= i < |entries|
    ensures Segments(entries[..i + 1]) == Segments(entries[..i]) + [SmsSegment(entries[i])]
  {
    var a, b := Segments(entries[..i + 1]), Segments(entries[..i]) + [SmsSegment(entries[i])];
    forall k | 0 <= k < |a|
      ensures a[k] == b[k]
    {
      assert entries[..i + 1][k] == entries[k];
    }
  }

  /** The builder after i entries: empty at first, then a comma before each segment. */
  predicate SmsBuilder(entries: seq<Entry>, i: int, out: string)
    requires 0 <= i <= |entries|
  {
    if i == 0 then out == "" else out == [StatisticsSmsSeparator] + Join(Segments(entries[..i]), StatisticsSmsSeparator)
  }

  /** Appending a comma and the next segment extends the builder by one entry. */
  lemma SmsBuilderStep(entries: seq<Entry>, i: int, out: string)
    requires 0 <= i < |entries| && SmsBuilder(entries, i, out)
    ensures SmsBuilder(entries, i + 1, out + [StatisticsSmsSeparator] + SmsSegment(entries[i]))
  {
    SegmentsSnoc(entries, i);
    if i > 0 {
      JoinSnoc(Segments(entries[..i]), SmsSegment(entries[i]), StatisticsSmsSeparator);
    } else {
      assert Segments(entries[..1]) == [SmsSegment(entries[0])];
    }
  }

  /** The SMS text: the keyword, a space, then the segments separated by commas. */
  function SmsText(entries: seq<Entry>): string {
    [StatisticsSmsKeyword, ' '] + Join(Segments(entries), StatisticsSmsSeparator)
  }

  /** The SMS text starts with the keyword and a space; when no segment holds a comma,
      cutting the rest at the commas gives back one segment per entry, in order. */
  lemma SmsTextSegments(entries: seq<Entry>)
    requires |entries| >= 1
    requires forall i :: 0 <= i < |entries| ==> StatisticsSmsSeparator !in SmsSegment(entries[i])
    ensures |SmsText(entries)| >= 2
    ensures SmsText(entries)[0] == StatisticsSmsKeyword && SmsText(entries)[1] == ' '
    ensures SplitAll(SmsText(entries)[2..], StatisticsSmsSeparator) == Segments(entries)
  {
    var segments := Segments(entries);
    assert SmsText(entries)[2..] == Join(segments, StatisticsSmsSeparator);
    SplitAllJoin(segments, StatisticsSmsSeparator);
  }

  /** The text of one e-mail line, without its line break. */
  function LineText(e: Entry): string {
    e.0 + " = " + e.1
  }

  /** The e-mail text: one line per entry, in list order, each ended by a line break. */
  function EmailString(entries: seq<Entry>): string {
    if |entries| == 0 then "" else LineText(entries[0]) + "\n" + EmailString(entries[1..])
  }

  /** The e-mail text of a concatenation is the concatenation of the e-mail texts. */
  lemma {:induction false} EmailStringAppend(a: seq<Entry>, b: seq<Entry>)
    ensures EmailString(a + b) == EmailString(a) + EmailString(b)
  {
    if |a| == 0 {
      assert a + b == b;
    } else {
      var line := LineText(a[0]) + "\n";
      assert (a + b)[0] == a[0] && (a + b)[1..] == a[1..] + b;
      assert EmailString(a + b) == line + EmailString(a[1..] + b);
      EmailStringAppend(a[1..], b);
      assert EmailString(a) == line + EmailString(a[1..]);
    }
  }

  /** The line texts of the entries, in list order. */
  function Lines(entries: seq<Entry>): (lines: seq<string>)
    ensures |lines| == |entries|
  {
    seq(|entries|, i requires 0 <= i < |entries| => LineText(entries[i]))
  }

  /** When no key or value holds a line break, cutting the e-mail text at its line breaks
      gives back one "key = value" line per entry, in order, then the empty rest. */
  lemma {:induction false} EmailStringLines(entries: seq<Entry>)
    requires forall i :: 0 <= i < |entries| ==> '\n' !in entries[i].0 && '\n' !in entries[i].1
    ensures SplitAll(EmailString(entries), '\n') == Lines(entries) + [""]
  {
    EmailStringIsJoin(entries);
    var lines := Lines(entries) + [""];
    forall k | 0 <= k < |lines|
      ensures '\n' !in lines[k]
    {
      if k < |entries| {
        assert lines[k] == entries[k].0 + " = " + entries[k].1;
      }
    }
    SplitAllJoin(lines, '\n');
  }

  /** The e-mail text is the lines joined by line breaks, followed by a final line break. */
  lemma {:induction false} EmailStringIsJoin(entries: seq<Entry>)
    ensures EmailString(entries) == Join(Lines(entries) + [""], '\n')
  {
    if |entries| > 0 {
      EmailStringIsJoin(entries[1..]);
      var lines := Lines(entries) + [""];
      assert lines[1..] == Lines(entries[1..]) + [""];
    }
  }

  /** Joining one more part appends the separator and that part. */
  lemma {:induction false} JoinSnoc(parts: seq<string>, p: string, c: char)
    requires |parts| >= 1
    ensures Join(parts + [p], c) == Join(parts, c) + [c] + p
  {
    if |parts| > 1 {
      JoinSnoc(parts[1..], p, c);
      assert (parts + [p])[1..] == parts[1..] + [p];
    }
  }

  /**
   * The statistics collected for one report. `statisticsList` is the ordered map the
   * collectors fill, as a list of entries with distinct keys.
   */
  class StatisticsManager {
    var statisticsList: seq<Entry>

    ghost predicate Valid()
      reads this
    {
      DistinctKeys(statisticsList)
    }

    /** A manager with no statistics yet. */
    constructor ()
      ensures Valid() && statisticsList == []
    {
      statisticsList := [];
    }

    /** Records one statistic, as the collectors do with statisticsList.put. */
    method Put(key: string, value: string)
      requires Valid()
      modifies this
      ensures Valid()
      ensures statisticsList == Updated(old(statisticsList), key, value)
    {
      UpdatedLookup(statisticsList, key, value, key);
      statisticsList := Updated(statisticsList, key, value);
    }

    /** getDataAsSmsString: builds ",segment" for every entry, then drops the first comma
        and prefixes the keyword and a space; with no entries the builder is empty and
        substring(1) fails. */
    method GetDataAsSmsString() returns (r: Result<string, IndexError>)
      ensures |statisticsList| == 0 ==> r == Failure(StringIndexOutOfBounds(1, 0))
      ensures |statisticsList| > 0 ==> r == Success(SmsText(statisticsList))
    {
      var statsOutput: string := "";
      for i := 0 to |statisticsList|
        invariant SmsBuilder(statisticsList, i, statsOutput)
      {
        ghost var before := statsOutput;
        statsOutput := statsOutput + [StatisticsSmsSeparator];
        var key := statisticsList[i].0;
        if IsCompositeKey(key) {
          var shortKeyBeginIndex := IndexOf(key, StatsListKeySeparator) + 1;
          var shortKey := key[shortKeyBeginIndex..if |key| < shortKeyBeginIndex + 2 then |key| else shortKeyBeginIndex + 2];
          assert shortKey == ShortKey(key);
          statsOutput := statsOutput + shortKey;
          statsOutput := statsOutput + [StatisticsSmsOptionalKeyValueSeparator];
        }
        statsOutput := statsOutput + statisticsList[i].1;
        assert statsOutput == before + [StatisticsSmsSeparator] + SmsSegment(statisticsList[i]);
        SmsBuilderStep(statisticsList, i, before);
      }
      assert statisticsList[..|statisticsList|] == statisticsList;
      if |statsOutput| < 1 {
        r := Failure(StringIndexOutOfBounds(1, |statsOutput|));
      } else {
        r := Success([StatisticsSmsKeyword, ' '] + statsOutput[1..]);
      }
    }

    /** getDataAsEmailString: appends "key = value" and a line break for every entry. */
    method GetDataAsEmailString() returns (statsOutput: string)
      ensures statsOutput == EmailString(statisticsList)
    {
      statsOutput := "";
      for i := 0 to |statisticsList|
        invariant statsOutput == EmailString(statisticsList[..i])
      {
        var entry := statisticsList[i];
        statsOutput := statsOutput + entry.0 + " = " + entry.1 + "\n";
        EmailStringAppend(statisticsList[..i], [entry]);
        assert statisticsList[..i + 1] == statisticsList[..i] + [entry];
      }
      assert statisticsList[..|statisticsList|] == statisticsList;
    }

    /** toString: the e-mail text. */
    method ToString() returns (s: string)
      ensures s == EmailString(statisticsList)
    {
      s := GetDataAsEmailString();
    }
  }
}
