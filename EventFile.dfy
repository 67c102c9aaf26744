/**
 * writeEventsToFile: the text written to the events file. `json.dumps` of
 * one event is the parameter `serialize`; opening and writing the file are
 * outside the model, the text is the result.
 */
module EventFile {
  import opened Events

  /** One line of the array: a tab, the serialized event, an optional comma, a newline. */
  function EntryText(e: Event, comma: bool, serialize: Event -> string): string {
    "\t" + serialize(e) + (if comma then "," else "") + "\n"
  }

  /**
   * The first k entries as the source writes them: an entry gets a comma
   * unless the event is EQUAL to the last event of the list.
   */
  function WrittenEntries(events: seq<Event>, k: nat, serialize: Event -> string): string
    requires k <= |events|
  {
    if k == 0 then ""
    else
      WrittenEntries(events, k - 1, serialize)
      + EntryText(events[k - 1], events[k - 1] != events[|events| - 1], serialize)
  }

  /** The whole file as the source writes it. */
  function WrittenText(events: seq<Event>, serialize: Event -> string): string {
    "[\n" + WrittenEntries(events, |events|, serialize) + "]\n"
  }

  /** The first k entries with a comma on every entry except the one at the last POSITION. */
  function IntendedEntries(events: seq<Event>, k: nat, serialize: Event -> string): string
    requires k <= |events|
  {
    if k == 0 then ""
    else
      IntendedEntries(events, k - 1, serialize)
      + EntryText(events[k - 1], k - 1 != |events| - 1, serialize)
  }

  /** The file with a comma after every entry but the last one: what a valid JSON array needs. */
  function IntendedText(events: seq<Event>, serialize: Event -> string): string {
    "[\n" + IntendedEntries(events, |events|, serialize) + "]\n"
  }

  /** writeEventsToFile, producing the text it prints into the file. */
  method WriteEventsToFile(events: seq<Event>, serialize: Event -> string) returns (text: string)
    ensures text == WrittenText(events, serialize)
    ensures events == [] ==> text == "[\n]\n"
    ensures |text| >= 4 && text[..2] == "[\n" && text[|text| - 2..] == "]\n"
  {
    text := "[\n";
    for i := 0 to |events|
      invariant text == "[\n" + WrittenEntries(events, i, serialize)
    {
      var event := events[i];
      if event == events[|events| - 1] {
        text := text + "\t" + serialize(event) + "\n";
      } else {
        text := text + "\t" + serialize(event) + "," + "\n";
      }
    }
    text := text + "]\n";
  }

  /** Number of entries before the last position whose event equals the last event. */
  function EarlyCopiesOfLast(events: seq<Event>, k: nat): nat
    requires k <= |events|
  {
    if k == 0 then 0
    else EarlyCopiesOfLast(events, k - 1) + (if k - 1 != |events| - 1 && events[k - 1] == events[|events| - 1] then 1 else 0)
  }

  /**
   * The written entries are one character shorter than the intended ones per
   * early copy of the last event, and are the intended ones when there is none.
   */
  lemma {:induction false} WrittenEntriesLength(events: seq<Event>, k: nat, serialize: Event -> string)
    requires k <= |events|
    ensures |WrittenEntries(events, k, serialize)| + EarlyCopiesOfLast(events, k) == |IntendedEntries(events, k, serialize)|
    ensures EarlyCopiesOfLast(events, k) == 0 ==> WrittenEntries(events, k, serialize) == IntendedEntries(events, k, serialize)
  {
    if k > 0 {
      WrittenEntriesLength(events, k - 1, serialize);
    }
  }

  /**
   * The written file is the intended one exactly when no event before the
   * last position equals the last event.
   */
  lemma WrittenIsIntendedIff(events: seq<Event>, serialize: Event -> string)
    ensures WrittenText(events, serialize) == IntendedText(events, serialize)
        <==> forall i :: 0 <= i < |events| - 1 ==> events[i] != events[|events| - 1]
  {
    WrittenEntriesLength(events, |events|, serialize);
    EarlyCopiesCount(events, |events|);
    if WrittenText(events, serialize) == IntendedText(events, serialize) {
      assert |WrittenEntries(events, |events|, serialize)| == |IntendedEntries(events, |events|, serialize)|;
    }
  }

  /** EarlyCopiesOfLast is zero exactly when no earlier entry equals the last one. */
  lemma {:induction false} EarlyCopiesCount(events: seq<Event>, k: nat)
    requires k <= |events|
    ensures EarlyCopiesOfLast(events, k) == 0 <==> forall i :: 0 <= i < k && i != |events| - 1 ==> events[i] != events[|events| - 1]
  {
    if k > 0 {
      EarlyCopiesCount(events, k - 1);
    }
  }

  /** With pairwise-distinct events only the last entry lacks a comma. */
  lemma DistinctEventsWrittenAsIntended(events: seq<Event>, serialize: Event -> string)
    requires forall i, j :: 0 <= i < j < |events| ==> events[i] != events[j]
    ensures WrittenText(events, serialize) == IntendedText(events, serialize)
  {
    WrittenIsIntendedIff(events, serialize);
  }

  /** The events of pairwise-distinct domains are written as intended. */
  lemma DistinctDomainsWrittenAsIntended(domains: seq<string>, time: string, events: seq<Event>, serialize: Event -> string)
    requires forall i, j :: 0 <= i < j < |domains| ==> domains[i] != domains[j]
    requires |events| == |domains|
    requires forall i :: 0 <= i < |domains| ==> BlocksDomain(events[i], domains[i], time)
    ensures WrittenText(events, serialize) == IntendedText(events, serialize)
  {
    DistinctDomainsDistinctEvents(domains, events, time);
    DistinctEventsWrittenAsIntended(events, serialize);
  }

  /** A list holding the same event twice is written without the comma between the two entries. */
  lemma DuplicateEventLosesComma(e: Event, serialize: Event -> string)
    ensures WrittenText([e, e], serialize) == "[\n" + "\t" + serialize(e) + "\n" + "\t" + serialize(e) + "\n" + "]\n"
    ensures WrittenText([e, e], serialize) != IntendedText([e, e], serialize)
  {
    assert WrittenEntries([e, e], 1, serialize) == "\t" + serialize(e) + "\n";
    assert [e, e][0] == [e, e][1];
    WrittenIsIntendedIff([e, e], serialize);
  }

  /** The entries as separated by `sep`: the layout of the elements of a JSON array. */
  function Join(items: seq<string>, sep: string): string
    requires |items| > 0
  {
    if |items| == 1 then items[0] else Join(items[..|items| - 1], sep) + sep + items[|items| - 1]
  }

  /** The tab-indented serialized events, one per event. */
  function Indented(events: seq<Event>, serialize: Event -> string): (r: seq<string>)
    ensures |r| == |events|
    ensures forall i :: 0 <= i < |events| ==> r[i] == "\t" + serialize(events[i])
  {
    seq(|events|, i requires 0 <= i < |events| => "\t" + serialize(events[i]))
  }

  /** Before the last position, the intended entries are the joined entries followed by a separator. */
  lemma {:induction false} IntendedPrefixIsJoin(events: seq<Event>, k: nat, serialize: Event -> string)
    requires 0 < k < |events|
    ensures IntendedEntries(events, k, serialize) == Join(Indented(events, serialize)[..k], ",\n") + ",\n"
  {
    var items := Indented(events, serialize);
    assert "," + "\n" == ",\n";
    assert EntryText(events[k - 1], true, serialize) == items[k - 1] + ",\n";
    if k > 1 {
      IntendedPrefixIsJoin(events, k - 1, serialize);
      assert items[..k][..k - 1] == items[..k - 1];
      assert items[..k][k - 1] == items[k - 1];
      calc {
        IntendedEntries(events, k, serialize);
        IntendedEntries(events, k - 1, serialize) + (items[k - 1] + ",\n");
        (Join(items[..k - 1], ",\n") + ",\n") + (items[k - 1] + ",\n");
        (Join(items[..k - 1], ",\n") + ",\n" + items[k - 1]) + ",\n";
        Join(items[..k], ",\n") + ",\n";
      }
    } else {
      assert items[..1] == [items[0]];
    }
  }

  /**
   * The intended file is a JSON array: `[`, the entries separated by `,`
   * and a newline, then `]`; with no events, `[` and `]` alone.
   */
  lemma IntendedTextIsJsonArray(events: seq<Event>, serialize: Event -> string)
    ensures events == [] ==> IntendedText(events, serialize) == "[\n]\n"
    ensures events != [] ==> IntendedText(events, serialize) == "[\n" + Join(Indented(events, serialize), ",\n") + "\n]\n"
  {
    var n := |events|;
    var items := Indented(events, serialize);
    if n > 0 {
      var lastEntry := EntryText(events[n - 1], false, serialize);
      assert lastEntry == items[n - 1] + "\n";
      if n > 1 {
        IntendedPrefixIsJoin(events, n - 1, serialize);
        calc {
          IntendedEntries(events, n, serialize);
          (Join(items[..n - 1], ",\n") + ",\n") + (items[n - 1] + "\n");
          (Join(items[..n - 1], ",\n") + ",\n" + items[n - 1]) + "\n";
          Join(items, ",\n") + "\n";
        }
      } else {
        assert IntendedEntries(events, 0, serialize) == "";
        assert "" + lastEntry == lastEntry;
        assert IntendedEntries(events, n, serialize) == Join(items, ",\n") + "\n";
      }
      assert "[\n" + (Join(items, ",\n") + "\n") + "]\n" == "[\n" + Join(items, ",\n") + "\n]\n";
    }
  }
}
