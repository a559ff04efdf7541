/**
 * The text `generateCSV(_:)` writes: a "Passwords" heading and one
 * "username,password,url" line per entry, nil fields written as "".
 */
module CsvExport {
  import opened Wrappers
  import opened Strings
  import opened ContentView

  const Heading: string := "Passwords"

  /** One record: username, password and url, in that order, separated by two commas; nil is written as "". */
  function Record(e: Entry): (r: string)
    ensures var u, p, w := e.username.GetOr(""), e.password.GetOr(""), e.url.GetOr("");
            && |r| == |u| + |p| + |w| + 2
            && r[..|u|] == u && r[|u|] == ','
            && r[|u| + 1..|u| + 1 + |p|] == p && r[|u| + 1 + |p|] == ','
            && r[|u| + 2 + |p|..] == w
  {
    e.username.GetOr("") + "," + e.password.GetOr("") + "," + e.url.GetOr("")
  }

  function Records(items: seq<Entry>): (r: seq<string>)
    ensures |r| == |items|
    ensures forall k :: 0 <= k < |items| ==> r[k] == Record(items[k])
  {
    if items == [] then [] else [Record(items[0])] + Records(items[1..])
  }

  /** `heading + rows.joined(separator: "\n")`, as the source writes it. */
  function CsvText(items: seq<Entry>): (r: string)
    ensures |r| >= |Heading| && r[..|Heading|] == Heading
  {
    Heading + Join(Records(items), '\n')
  }

  /** The heading with a line break after it, as the heading comment evidently intends. */
  function CsvTextWithHeadingLine(items: seq<Entry>): (r: string)
    ensures |r| > |Heading| && r[..|Heading| + 1] == Heading + "\n"
  {
    Heading + "\n" + Join(Records(items), '\n')
  }

  /** No field of the entry holds the given character. */
  predicate FieldsAvoid(e: Entry, c: char) {
    c !in e.username.GetOr("") && c !in e.password.GetOr("") && c !in e.url.GetOr("")
  }

  /** A record reads back as its three fields when none of them holds a comma. */
  lemma RecordFields(e: Entry)
    requires FieldsAvoid(e, ',')
    ensures Split(Record(e), ',') == [e.username.GetOr(""), e.password.GetOr(""), e.url.GetOr("")]
  {
    var u, p, w := e.username.GetOr(""), e.password.GetOr(""), e.url.GetOr("");
    assert Record(e) == u + [','] + (p + [','] + w);
    SplitAt(u, ',', p + [','] + w);
    SplitAt(p, ',', w);
    SplitWithout(w, ',');
  }

  lemma RecordsAvoid(items: seq<Entry>)
    requires forall k :: 0 <= k < |items| ==> FieldsAvoid(items[k], '\n')
    ensures forall k :: 0 <= k < |items| ==> '\n' !in Records(items)[k]
  {
  }

  /**
   * With the line break after the heading, the lines are the heading and
   * then one record per entry, in order; with no entries the text ends in
   * the line break, so one empty line follows the heading.
   */
  lemma CsvLines(items: seq<Entry>)
    requires forall k :: 0 <= k < |items| ==> FieldsAvoid(items[k], '\n')
    ensures items != [] ==> Split(CsvTextWithHeadingLine(items), '\n') == [Heading] + Records(items)
    ensures items == [] ==> Split(CsvTextWithHeadingLine(items), '\n') == [Heading, ""]
  {
    var records := Records(items);
    var body := Join(records, '\n');
    assert CsvTextWithHeadingLine(items) == Heading + ['\n'] + body;
    HeadingHasNoBreak();
    SplitAt(Heading, '\n', body);
    if records == [] {
      SplitWithout(body, '\n');
    } else {
      RecordsAvoid(items);
      SplitJoin(records, '\n');
    }
  }

  lemma HeadingHasNoBreak()
    ensures '\n' !in Heading
  {
  }

  /** As written, the first record is glued to the heading: the first line is "Passwords" followed by it. */
  lemma CsvHeadingGlued(items: seq<Entry>)
    requires |items| >= 1
    requires forall k :: 0 <= k < |items| ==> FieldsAvoid(items[k], '\n')
    ensures Split(CsvText(items), '\n') == [Heading + Record(items[0])] + Records(items[1..])
  {
    var records := Records(items);
    RecordsAvoid(items);
    HeadingHasNoBreak();
    var glued := [Heading + records[0]] + records[1..];
    JoinGlue(Heading, records, '\n');
    assert forall k :: 1 <= k < |glued| ==> glued[k] == records[k];
    SplitJoin(glued, '\n');
    assert records[1..] == Records(items[1..]);
  }

  /** Prepending text to a join prepends it to the first piece. */
  lemma JoinGlue(prefix: string, xs: seq<string>, sep: char)
    requires |xs| >= 1
    ensures prefix + Join(xs, sep) == Join([prefix + xs[0]] + xs[1..], sep)
  {
    var ys := [prefix + xs[0]] + xs[1..];
    assert ys[1..] == xs[1..];
  }

  /** A single entry: "Passwords" and its record with no line break between them. */
  lemma CsvHeadingGluedExample()
    ensures CsvText([Entry(0, Some("w"), Some("u"), Some("p"))]) == "Passwordsu,p,w"
  {
    var e := Entry(0, Some("w"), Some("u"), Some("p"));
    assert Records([e]) == [Record(e)];
    assert e.username.GetOr("") == "u" && e.password.GetOr("") == "p" && e.url.GetOr("") == "w";
    assert Record(e) == "u,p,w";
  }
}
