/**
 The conversion history ledger of app.js as a state machine. The state is the
 value stored under the history key (as `JSON.parse(…) || []` sees it) and the
 badge that shows the number of records. Storage, `confirm`, the clipboard
 and the file download are outside the model; their outcomes are parameters.
 */
module History {
  import opened Html
  import Converter

  /** One conversion: locale time stamp, raw input text and produced literal. */
  datatype Record = Record(time: string, input: string, output: string)

  /** The stored history as the reading code sees it. */
  datatype Stored =
    | Absent                       // no value under the key, or a stored `null`
    | Unreadable                   // storage threw, or the value is not JSON
    | Saved(records: seq<Record>)  // a JSON array of records, newest first

  /** The failure-tolerant read used by every handler: anything but a saved
      list reads as the empty list. */
  function Read(stored: Stored): seq<Record> {
    if stored.Saved? then stored.records else []
  }

  /** The history counter: its text and whether it carries the `visible` class. */
  datatype Badge = Badge(count: nat, visible: bool)

  /** `updateHistoryBadge(len)`: the counter shows `len` and is visible
      exactly when there is something to count. */
  function BadgeFor(len: nat): (b: Badge)
    ensures b.count == len && (b.visible <==> len > 0)
  {
    Badge(len, len > 0)
  }

  datatype Ledger = Ledger(stored: Stored, badge: Badge)

  /** The badge shows the number of stored records. */
  predicate Consistent(l: Ledger) {
    l.badge == BadgeFor(|Read(l.stored)|)
  }

  /** Start-up: the badge is set from whatever the store holds. */
  function Init(stored: Stored): (l: Ledger)
    ensures l.stored == stored && Consistent(l)
  {
    Ledger(stored, BadgeFor(|Read(stored)|))
  }

  // ---------------------------------------------------------------------------
  // addToHistory
  // ---------------------------------------------------------------------------

  /** `addToHistory`: the new record goes in front of whatever could be read;
      when the write fails (`writeOk` false) the store keeps its old value, but
      the badge still shows the new length. */
  function Append(l: Ledger, time: string, input: string, output: string, writeOk: bool): (l': Ledger)
    ensures writeOk ==>
      && |Read(l'.stored)| == |Read(l.stored)| + 1
      && Read(l'.stored)[0] == Record(time, input, output)
      && Read(l'.stored)[1..] == Read(l.stored)
    ensures !writeOk ==> l'.stored == l.stored
    ensures l'.badge.count == |Read(l.stored)| + 1 && l'.badge.visible
  {
    var history := [Record(time, input, output)] + Read(l.stored);
    Ledger(if writeOk then Saved(history) else l.stored, BadgeFor(|history|))
  }

  /** A successful append keeps the badge in step with the store. */
  lemma AppendKeepsConsistent(l: Ledger, time: string, input: string, output: string)
    ensures Consistent(Append(l, time, input, output, true))
  {
  }

  /** A failed write lets the badge run ahead of the store by one. */
  lemma AppendWriteFailure(l: Ledger, time: string, input: string, output: string)
    ensures var l' := Append(l, time, input, output, false);
      !Consistent(l') && l'.badge.count == |Read(l'.stored)| + 1
  {
  }

  /** `convert` followed by its `addToHistory` call, for every input (also an
      empty one): the output literal, and a ledger whose badge is set to one
      more than the number of stored records read. The record is stored only
      when the write succeeds. */
  function ConvertAndRecord(l: Ledger, text: string, time: string, writeOk: bool): (r: (string, Ledger))
    ensures r.0 == Converter.Convert(text)
    ensures r.1.badge.count == |Read(l.stored)| + 1
    ensures writeOk ==> Read(r.1.stored) == [Record(time, text, r.0)] + Read(l.stored)
  {
    var out := Converter.Convert(text);
    var l' := Append(l, time, text, out, writeOk);
    assert writeOk ==> Read(l'.stored) == [Read(l'.stored)[0]] + Read(l'.stored)[1..];
    (out, l')
  }

  /** From a ledger whose badge agrees with its store, a conversion raises the
      badge by one whether or not the write succeeds. */
  lemma ConvertRaisesBadge(l: Ledger, text: string, time: string, writeOk: bool)
    requires Consistent(l)
    ensures ConvertAndRecord(l, text, time, writeOk).1.badge.count == l.badge.count + 1
  {
  }

  function Reverse<T>(xs: seq<T>): (r: seq<T>)
    ensures |r| == |xs|
  {
    if xs == [] then [] else Reverse(xs[1..]) + [xs[0]]
  }

  /** Appends `records` one after another, each write succeeding. */
  function AppendAll(l: Ledger, records: seq<Record>): Ledger
    decreases |records|
  {
    if records == [] then l
    else
      var r := records[0];
      AppendAll(Append(l, r.time, r.input, r.output, true), records[1..])
  }

  /** One successful append puts the record in front of what was read. */
  lemma AppendFront(l: Ledger, r: Record)
    ensures Read(Append(l, r.time, r.input, r.output, true).stored) == [r] + Read(l.stored)
  {
    var s := Read(Append(l, r.time, r.input, r.output, true).stored);
    assert s == [s[0]] + s[1..];
  }

  /** After N successful appends the ledger holds the N new records newest
      first, in front of the old ones. */
  lemma {:induction false} AppendAllNewestFirst(l: Ledger, records: seq<Record>)
    ensures Read(AppendAll(l, records).stored) == Reverse(records) + Read(l.stored)
    decreases |records|
  {
    if records != [] {
      var r := records[0];
      var l1 := Append(l, r.time, r.input, r.output, true);
      AppendFront(l, r);
      assert AppendAll(l, records) == AppendAll(l1, records[1..]);
      AppendAllNewestFirst(l1, records[1..]);
      var rest := Reverse(records[1..]);
      assert Reverse(records) == rest + [r];
      assert rest + ([r] + Read(l.stored)) == (rest + [r]) + Read(l.stored);
    }
  }

  /** After at least one successful append the badge counts every record. */
  lemma {:induction false} AppendAllConsistent(l: Ledger, records: seq<Record>)
    requires records != []
    ensures Consistent(AppendAll(l, records))
    decreases |records|
  {
    var r := records[0];
    var l1 := Append(l, r.time, r.input, r.output, true);
    AppendKeepsConsistent(l, r.time, r.input, r.output);
    if records[1..] != [] {
      AppendAllConsistent(l1, records[1..]);
    }
  }

  // ---------------------------------------------------------------------------
  // renderHistory
  // ---------------------------------------------------------------------------

  /** One collapsible entry: its `data-idx` and the escaped header and bodies. */
  datatype Entry = Entry(idx: nat, header: string, input: string, output: string)

  /** What the history panel shows: the "no records" text or the entries. */
  datatype View = NoRecords | Entries(entries: seq<Entry>)

  /** `renderHistory`: one entry per stored record, in stored order, indexed by
      position, with time, input and output HTML-escaped. */
  function Render(stored: Stored): (v: View)
    ensures v.NoRecords? <==> Read(stored) == []
    ensures v.Entries? ==> |v.entries| == |Read(stored)|
    ensures v.Entries? ==> forall i :: 0 <= i < |v.entries| ==>
      && v.entries[i].idx == i
      && '<' !in v.entries[i].input && '<' !in v.entries[i].output && '<' !in v.entries[i].header
      && '>' !in v.entries[i].input && '>' !in v.entries[i].output && '>' !in v.entries[i].header
  {
    var history := Read(stored);
    if |history| == 0 then NoRecords
    else Entries(seq(|history|, i requires 0 <= i < |history| =>
      Entry(i, EscapeHtml(history[i].time), EscapeHtml(history[i].input), EscapeHtml(history[i].output))))
  }

  /** Every rendered entry decodes back to its record, and carries no markup
      of its own. */
  lemma RenderShowsRecords(stored: Stored, i: nat)
    requires i < |Read(stored)|
    ensures var v := Render(stored); var e := v.entries[i]; var rec := Read(stored)[i];
      && UnescapeHtml(e.header) == rec.time
      && UnescapeHtml(e.input) == rec.input
      && UnescapeHtml(e.output) == rec.output
      && NoBareAmpersand(e.input) && NoBareAmpersand(e.output) && NoBareAmpersand(e.header)
  {
    var rec := Read(stored)[i];
    UnescapeEscapeHtml(rec.time);
    UnescapeEscapeHtml(rec.input);
    UnescapeEscapeHtml(rec.output);
    EscapedAmpersands(rec.time);
    EscapedAmpersands(rec.input);
    EscapedAmpersands(rec.output);
  }

  /** A single append to an empty ledger renders as one entry at index 0,
      showing that record's time, input and output. */
  lemma RenderAfterFirstAppend(l: Ledger, time: string, input: string, output: string)
    requires Read(l.stored) == []
    ensures var v := Render(Append(l, time, input, output, true).stored);
      && v.Entries? && |v.entries| == 1 && v.entries[0].idx == 0
      && UnescapeHtml(v.entries[0].header) == time
      && UnescapeHtml(v.entries[0].input) == input && UnescapeHtml(v.entries[0].output) == output
  {
    var l' := Append(l, time, input, output, true);
    RenderShowsRecords(l'.stored, 0);
  }

  // ---------------------------------------------------------------------------
  // clear and export
  // ---------------------------------------------------------------------------

  /** The clear-history handler: nothing happens unless `confirm` said yes;
      then the key is removed (if removal does not throw) and the badge is
      reset to 0. */
  function Clear(l: Ledger, confirmed: bool, removeOk: bool): (l': Ledger)
    ensures !confirmed ==> l' == l
    ensures confirmed ==> l'.badge == Badge(0, false)
    ensures confirmed && removeOk ==> Read(l'.stored) == [] && Render(l'.stored) == NoRecords
    ensures confirmed && !removeOk ==> l'.stored == l.stored
  {
    if !confirmed then l
    else Ledger(if removeOk then Absent else l.stored, BadgeFor(0))
  }

  /** Clearing keeps the badge in step with the store. */
  lemma ClearKeepsConsistent(l: Ledger, confirmed: bool)
    requires Consistent(l)
    ensures Consistent(Clear(l, confirmed, true))
  {
  }

  /** The name of the downloaded file. */
  const ExportFileName := "uuid-converter-history.json"

  /** What the export handler does: either the "nothing to export" alert and
      nothing else, or the whole stored list handed to the clipboard and to
      the download, with the copy acknowledgement shown when the clipboard
      write succeeded and the manual-copy alert when the download failed. */
  datatype ExportOutcome =
    | NothingToExport
    | Exported(payload: seq<Record>, fileName: string, copied: bool, downloadFailed: bool)

  /** The export handler's decision. `clipboardOk` is "the clipboard API
      exists and `writeText` resolved"; `downloadOk` is "the Blob download did
      not throw". The download is attempted once the clipboard attempt has
      settled, whatever its outcome. */
  function Export(stored: Stored, clipboardOk: bool, downloadOk: bool): (r: ExportOutcome)
    ensures r.NothingToExport? <==> Read(stored) == []
    ensures r.Exported? ==> r.payload == Read(stored) && |r.payload| > 0
    ensures r.Exported? ==> r.copied == clipboardOk && r.downloadFailed == !downloadOk
  {
    var history := Read(stored);
    if |history| == 0 then NothingToExport
    else Exported(history, ExportFileName, clipboardOk, !downloadOk)
  }

  /** Export after a confirmed, successful clear has nothing to offer. */
  lemma ExportAfterClear(l: Ledger, clipboardOk: bool, downloadOk: bool)
    ensures Export(Clear(l, true, true).stored, clipboardOk, downloadOk) == NothingToExport
  {
  }
}
