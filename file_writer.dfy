/** Rendering commit records as a changelog (parser/file_writer.py): the writer
    configuration, the closed set of formats and the factory that picks a writer,
    the Markdown document, and the rows and records the JSON, YAML, CSV and raw
    writers hand to their serialisers. */
module FileWriter {
  import opened Wrappers
  import opened Text
  import opened Sequences
  import opened CommitLog

  /** How commits are rendered. `groupByScope` and `breakChangeMark` are read by no writer. */
  datatype WriterConfig = WriterConfig(
    typMapping: map<string, string>,
    groupByScope: bool,
    ignoreTyps: seq<string>,
    breakChangeMark: string)

  const DefaultConfig := WriterConfig(
    map[
      "feat" := "Features",
      "fix" := "Bug Fixes",
      "refactor" := "Refactors",
      "perf" := "Performance Improvements",
      "docs" := "Documentation",
      "style" := "Styles",
      "test" := "Tests",
      "chore" := "Chores",
      "revert" := "Reverts"],
    false,
    [],
    "Breaking Changes")

  const RawConfig := WriterConfig(map[], false, [], "Breaking Changes")

  // ---------------------------------------------------------------------------
  // Formats and the writer factory

  datatype FileFormat = Markdown | Json | Yaml | Csv | Raw {
    /** The name that selects the format. */
    function Value(): string {
      match this
      case Markdown => "markdown"
      case Json => "json"
      case Yaml => "yaml"
      case Csv => "csv"
      case Raw => "raw"
    }
  }

  const FormatNames: seq<string> := ["markdown", "json", "yaml", "csv", "raw"]

  /** The `ValueError` the enumeration raises for a name that is not one of its values. */
  datatype FormatError = NotAFormat(form: string)

  /** `from_format`: the format whose name is `form`, or an error. */
  function FromFormat(form: string): (r: Result<FileFormat, FormatError>)
    ensures r.Success? <==> form in FormatNames
    ensures r.Success? ==> r.value.Value() == form
    ensures r.Failure? ==> r.error == NotAFormat(form)
  {
    if form == "markdown" then Success(Markdown)
    else if form == "json" then Success(Json)
    else if form == "yaml" then Success(Yaml)
    else if form == "csv" then Success(Csv)
    else if form == "raw" then Success(Raw)
    else Failure(NotAFormat(form))
  }

  /** Every format is selected by its own name. */
  lemma FromFormatValue(format: FileFormat)
    ensures FromFormat(format.Value()) == Success(format)
  {
  }

  /** A writer: the destination path and the configuration it renders with. */
  datatype Writer =
    | MarkdownWriter(filePath: string, config: WriterConfig)
    | JsonWriter(filePath: string, config: WriterConfig)
    | YamlWriter(filePath: string, config: WriterConfig)
    | CsvWriter(filePath: string, config: WriterConfig)
    | RawWriter(filePath: string, config: WriterConfig)
  {
    /** The format the writer produces. */
    function Format(): FileFormat {
      match this
      case MarkdownWriter(_, _) => Markdown
      case JsonWriter(_, _) => Json
      case YamlWriter(_, _) => Yaml
      case CsvWriter(_, _) => Csv
      case RawWriter(_, _) => Raw
    }
  }

  /** `create_writer`: one writer per format, so no format is unsupported. */
  function CreateWriter(format: FileFormat, filePath: string, config: WriterConfig): (w: Writer)
    ensures w.Format() == format
    ensures w.filePath == filePath && w.config == config
  {
    match format
    case Markdown => MarkdownWriter(filePath, config)
    case Json => JsonWriter(filePath, config)
    case Yaml => YamlWriter(filePath, config)
    case Csv => CsvWriter(filePath, config)
    case Raw => RawWriter(filePath, config)
  }

  // ---------------------------------------------------------------------------
  // Type labels and the ignore filter

  /** `typ_mapping.get(typ, typ)`. */
  function Label(mapping: map<string, string>, typ: string): string {
    if typ in mapping then mapping[typ] else typ
  }

  /** A commit with its type replaced by its label. */
  function Relabel(mapping: map<string, string>, c: CommitInfo): CommitInfo {
    c.(typ := Label(mapping, c.typ))
  }

  function RelabelAll(mapping: map<string, string>, commits: seq<CommitInfo>): (r: seq<CommitInfo>)
    ensures |r| == |commits|
    ensures forall i | 0 <= i < |commits| :: r[i] == Relabel(mapping, commits[i])
  {
    if commits == [] then [] else [Relabel(mapping, commits[0])] + RelabelAll(mapping, commits[1..])
  }

  /** The commits the JSON, YAML, CSV and raw writers keep: those of a type not ignored. */
  function Kept(config: WriterConfig, commits: seq<CommitInfo>): (kept: seq<CommitInfo>)
    ensures forall c | c in kept :: c in commits && c.typ !in config.ignoreTyps
  {
    Filter(commits, NotIgnored(config))
  }

  /** `commit.typ not in self.config.ignore_typs`. */
  function NotIgnored(config: WriterConfig): CommitInfo -> bool {
    (c: CommitInfo) => c.typ !in config.ignoreTyps
  }

  /** Each commit of a type not ignored is kept as often as it occurs; no other is. */
  lemma KeptExactly(config: WriterConfig, commits: seq<CommitInfo>, c: CommitInfo)
    ensures multiset(Kept(config, commits))[c]
      == if c.typ in config.ignoreTyps then 0 else multiset(commits)[c]
  {
    FilterCount(commits, NotIgnored(config), c);
  }

  /** The kept commits stay in their original order. */
  lemma KeptInOrder(config: WriterConfig, a: seq<CommitInfo>, b: seq<CommitInfo>)
    ensures Kept(config, a + b) == Kept(config, a) + Kept(config, b)
  {
    FilterAppend(a, b, NotIgnored(config));
  }

  // ---------------------------------------------------------------------------
  // The nine-field rows and records of the JSON, YAML and CSV writers

  /** One value of a row: a string, or the breaking-change flag. */
  datatype Cell = StrCell(s: string) | BoolCell(b: bool)

  /** One key/value pair of a JSON or YAML record. */
  datatype Field = Field(key: string, value: Cell)

  const FieldNames: seq<string> :=
    ["type", "scope", "title", "message", "author", "committer", "commit_time", "hash", "break_change"]

  /** The CSV header row. */
  const HeaderRow: seq<Cell> := StrCells(FieldNames)

  /** Each name as a string cell. */
  function StrCells(names: seq<string>): seq<Cell> {
    seq(|names|, i requires 0 <= i < |names| => StrCell(names[i]))
  }

  /** The nine values written for a commit, its type replaced by its label. */
  function Row(mapping: map<string, string>, c: CommitInfo): seq<Cell> {
    [StrCell(Label(mapping, c.typ)), StrCell(c.scope), StrCell(c.title), StrCell(c.message),
     StrCell(c.author), StrCell(c.committer), StrCell(c.commitTime), StrCell(c.hash),
     BoolCell(c.breakChange)]
  }

  /** Reads a commit back from nine values in the written order. */
  function FromRow(row: seq<Cell>): Option<CommitInfo> {
    if |row| == 9
       && row[0].StrCell? && row[1].StrCell? && row[2].StrCell? && row[3].StrCell?
       && row[4].StrCell? && row[5].StrCell? && row[6].StrCell? && row[7].StrCell?
       && row[8].BoolCell?
    then Some(CommitInfo(row[0].s, row[1].s, row[2].s, row[3].s, row[4].s,
                         row[5].s, row[6].s, row[7].s, row[8].b))
    else None
  }

  /** The record written for a commit: the nine field names paired with its row. */
  function Record(mapping: map<string, string>, c: CommitInfo): (rec: seq<Field>) {
    var row := Row(mapping, c);
    seq(9, i requires 0 <= i < 9 => Field(FieldNames[i], row[i]))
  }

  /** Reads a commit back from a record whose keys are the nine field names in order. */
  function FromRecord(rec: seq<Field>): Option<CommitInfo> {
    if |rec| == 9 && forall i | 0 <= i < 9 :: rec[i].key == FieldNames[i]
    then FromRow(seq(9, i requires 0 <= i < 9 => rec[i].value))
    else None
  }

  /** A record holds the nine fields in the fixed order; the type is the label, the rest is copied. */
  lemma RecordFields(mapping: map<string, string>, c: CommitInfo)
    ensures var rec := Record(mapping, c);
      && |rec| == |FieldNames|
      && (forall i | 0 <= i < |rec| :: rec[i].key == FieldNames[i])
      && rec[0].value == StrCell(if c.typ in mapping then mapping[c.typ] else c.typ)
      && FromRecord(rec) == Some(Relabel(mapping, c))
  {
    var rec := Record(mapping, c);
    assert seq(9, i requires 0 <= i < 9 => rec[i].value) == Row(mapping, c);
  }

  function RecordsOf(mapping: map<string, string>, commits: seq<CommitInfo>): (recs: seq<seq<Field>>)
    ensures |recs| == |commits|
  {
    if commits == [] then [] else [Record(mapping, commits[0])] + RecordsOf(mapping, commits[1..])
  }

  function RowsOf(mapping: map<string, string>, commits: seq<CommitInfo>): (rows: seq<seq<Cell>>)
    ensures |rows| == |commits|
  {
    if commits == [] then [] else [Row(mapping, commits[0])] + RowsOf(mapping, commits[1..])
  }

  /** Reads commits back from records, failing if any record is malformed. */
  function FromRecords(recs: seq<seq<Field>>): Option<seq<CommitInfo>> {
    if recs == [] then Some([])
    else
      match (FromRecord(recs[0]), FromRecords(recs[1..]))
      case (Some(c), Some(cs)) => Some([c] + cs)
      case _ => None
  }

  /** Reads commits back from rows, failing if any row is malformed. */
  function FromRows(rows: seq<seq<Cell>>): Option<seq<CommitInfo>> {
    if rows == [] then Some([])
    else
      match (FromRow(rows[0]), FromRows(rows[1..]))
      case (Some(c), Some(cs)) => Some([c] + cs)
      case _ => None
  }

  /** Reading the records back gives the relabelled commits, in order. */
  lemma {:induction false} RecordsRoundTrip(mapping: map<string, string>, commits: seq<CommitInfo>)
    ensures FromRecords(RecordsOf(mapping, commits)) == Some(RelabelAll(mapping, commits))
  {
    if commits != [] {
      var recs := RecordsOf(mapping, commits);
      assert recs[0] == Record(mapping, commits[0]);
      assert recs[1..] == RecordsOf(mapping, commits[1..]);
      RecordFields(mapping, commits[0]);
      RecordsRoundTrip(mapping, commits[1..]);
    }
  }

  /** Reading the rows back gives the relabelled commits, in order. */
  lemma {:induction false} RowsRoundTrip(mapping: map<string, string>, commits: seq<CommitInfo>)
    ensures FromRows(RowsOf(mapping, commits)) == Some(RelabelAll(mapping, commits))
  {
    if commits != [] {
      var rows := RowsOf(mapping, commits);
      assert rows[0] == Row(mapping, commits[0]);
      assert rows[1..] == RowsOf(mapping, commits[1..]);
      RowRoundTrip(mapping, commits[0]);
      RowsRoundTrip(mapping, commits[1..]);
    }
  }

  /** A row reads back as the relabelled commit. */
  lemma RowRoundTrip(mapping: map<string, string>, c: CommitInfo)
    ensures FromRow(Row(mapping, c)) == Some(Relabel(mapping, c))
  {
  }

  /** The records of the JSON and YAML writers. */
  function Records(config: WriterConfig, commits: seq<CommitInfo>): seq<seq<Field>> {
    RecordsOf(config.typMapping, Kept(config, commits))
  }

  /** The rows of the CSV writer: the header, then one row per kept commit. */
  function CsvRows(config: WriterConfig, commits: seq<CommitInfo>): (rows: seq<seq<Cell>>)
    ensures |rows| == 1 + |Kept(config, commits)|
    ensures rows[0] == HeaderRow
  {
    [HeaderRow] + RowsOf(config.typMapping, Kept(config, commits))
  }

  /** Reads commits back from a CSV table that starts with the header row. */
  function FromCsv(rows: seq<seq<Cell>>): Option<seq<CommitInfo>> {
    if rows != [] && rows[0] == HeaderRow then FromRows(rows[1..]) else None
  }

  // ---------------------------------------------------------------------------
  // The Markdown document

  /** The commits of one type under the heading that shows its label. */
  datatype Group = Group(typ: string, heading: string, commits: seq<CommitInfo>)

  /** The type of each commit, in order. */
  function Typs(commits: seq<CommitInfo>): seq<string> {
    seq(|commits|, i requires 0 <= i < |commits| => commits[i].typ)
  }

  /** The `i`-th type is that of the `i`-th commit. */
  lemma TypsAt(commits: seq<CommitInfo>)
    ensures |Typs(commits)| == |commits|
    ensures forall i | 0 <= i < |commits| :: Typs(commits)[i] == commits[i].typ
  {
  }

  /** The commits of type `typ`, in order. */
  function OfType(commits: seq<CommitInfo>, typ: string): seq<CommitInfo> {
    Filter(commits, HasType(typ))
  }

  /** `commit.typ == typ`. */
  function HasType(typ: string): CommitInfo -> bool {
    (c: CommitInfo) => c.typ == typ
  }

  /** One group per type of `typs`, in that order. */
  function GroupsOf(mapping: map<string, string>, commits: seq<CommitInfo>, typs: seq<string>)
    : seq<Group>
  {
    seq(|typs|, i requires 0 <= i < |typs| =>
      Group(typs[i], Label(mapping, typs[i]), OfType(commits, typs[i])))
  }

  /** `grouped_commits`, in the order each type is first seen. */
  function Groups(mapping: map<string, string>, commits: seq<CommitInfo>): seq<Group> {
    GroupsOf(mapping, commits, Distinct(Typs(commits)))
  }

  /** All the commits listed in the groups, group after group. */
  function Listed(groups: seq<Group>): seq<CommitInfo> {
    if groups == [] then [] else groups[0].commits + Listed(groups[1..])
  }

  /** `- scope: title by author`, the scope part only for a non-empty scope. */
  function ItemLine(c: CommitInfo): (line: string)
    ensures |line| >= 2 && line[..2] == "- "
    ensures var tail := c.title + " by " + c.author;
      |tail| <= |line| && line[|line| - |tail|..] == tail
    ensures c.scope == "" <==> line == "- " + c.title + " by " + c.author
    ensures c.scope != "" ==>
      && |line| == |c.scope| + 4 + |c.title + " by " + c.author|
      && line[2..|c.scope| + 4] == c.scope + ": "
  {
    "- " + (if c.scope != "" then c.scope + ": " else "") + c.title + " by " + c.author
  }

  function ItemLines(commits: seq<CommitInfo>): seq<string> {
    seq(|commits|, i requires 0 <= i < |commits| => ItemLine(commits[i]))
  }

  /** `### heading`, then one item line per commit of the group. */
  function GroupText(g: Group): (text: string)
    ensures var heading := "### " + g.heading + "\n";
      |heading| < |text| && text[..|heading|] == heading && text[|text| - 1] == '\n'
  {
    "### " + g.heading + "\n" + Join(ItemLines(g.commits), '\n') + "\n"
  }

  const ChangelogHeading: string := "## Changelog"

  /** The heading line the document starts with. */
  const ChangelogTitle: string := ChangelogHeading + "\n"

  /** The Markdown `prepare_data`: the title, then the groups joined by newlines. */
  function MarkdownText(config: WriterConfig, commits: seq<CommitInfo>): (doc: string)
    ensures |ChangelogTitle| <= |doc| && doc[..|ChangelogTitle|] == ChangelogTitle
    ensures commits == [] ==> doc == ChangelogTitle
  {
    ChangelogTitle + Join(GroupTexts(Groups(config.typMapping, commits)), '\n')
  }

  /** The text of each group, in order. */
  function GroupTexts(groups: seq<Group>): seq<string> {
    seq(|groups|, i requires 0 <= i < |groups| => GroupText(groups[i]))
  }

  /** The lines of a group's text: the heading, one line per commit, and the empty
      line its closing newline leaves. */
  function GroupLines(g: Group): seq<string> {
    ["### " + g.heading] + ItemLines(g.commits) + [""]
  }

  /** The lines of the groups' texts, group after group. */
  function LinesOf(groups: seq<Group>): seq<string> {
    if groups == [] then [] else GroupLines(groups[0]) + LinesOf(groups[1..])
  }

  /** A group that renders as whole lines: it has items, and neither its heading nor
      any of its commits' scope, title or author holds a newline. */
  predicate OneLineGroup(g: Group) {
    && g.commits != []
    && '\n' !in g.heading
    && forall c | c in g.commits :: '\n' !in c.scope && '\n' !in c.title && '\n' !in c.author
  }

  /** An item line of a commit whose fields hold no newline holds none either. */
  lemma ItemLineOneLine(c: CommitInfo)
    requires '\n' !in c.scope && '\n' !in c.title && '\n' !in c.author
    ensures '\n' !in ItemLine(c)
  {
    var mid := if c.scope != "" then c.scope + ": " else "";
    assert ItemLine(c) == "- " + mid + c.title + " by " + c.author;
    assert '\n' !in mid;
  }

  /** No line of a one-line group holds a newline. */
  lemma GroupLinesFree(g: Group)
    requires OneLineGroup(g)
    ensures forall k | 0 <= k < |GroupLines(g)| :: '\n' !in GroupLines(g)[k]
  {
    var lines := GroupLines(g);
    forall k | 0 <= k < |lines| ensures '\n' !in lines[k] {
      if 0 < k < |lines| - 1 {
        assert lines[k] == ItemLine(g.commits[k - 1]);
        ItemLineOneLine(g.commits[k - 1]);
      } else if k == 0 {
        assert lines[k] == "### " + g.heading;
      }
    }
  }

  /** A group's text is its lines joined by newlines. */
  lemma GroupTextLines(g: Group)
    requires g.commits != []
    ensures GroupText(g) == Join(GroupLines(g), '\n')
  {
    var heading := "### " + g.heading;
    var items := ItemLines(g.commits);
    JoinAppend([heading], items, '\n');
    JoinAppend([heading] + items, [""], '\n');
    assert Join([""], '\n') == "";
  }

  /** Splitting a one-line group's text at newlines gives its heading, its item lines
      in order, and the empty line its closing newline leaves. */
  lemma GroupTextSplit(g: Group)
    requires OneLineGroup(g)
    ensures Split(GroupText(g), '\n') == GroupLines(g)
  {
    GroupTextLines(g);
    GroupLinesFree(g);
    SplitJoin(GroupLines(g), '\n');
  }

  /** The group texts joined by newlines are the groups' lines joined by newlines. */
  lemma {:induction false} JoinGroupTexts(groups: seq<Group>)
    requires groups != []
    requires forall i | 0 <= i < |groups| :: groups[i].commits != []
    ensures |LinesOf(groups)| >= 2
    ensures Join(GroupTexts(groups), '\n') == Join(LinesOf(groups), '\n')
  {
    var g := groups[0];
    GroupTextLines(g);
    var texts := GroupTexts(groups);
    if |groups| == 1 {
      assert LinesOf(groups) == GroupLines(g) + LinesOf([]);
      assert GroupLines(g) + [] == GroupLines(g);
    } else {
      var rest := groups[1..];
      JoinGroupTexts(rest);
      assert texts[1..] == GroupTexts(rest);
      JoinCons(texts[0], texts[1..], '\n');
      assert texts == [texts[0]] + texts[1..];
      JoinAppend(GroupLines(g), LinesOf(rest), '\n');
    }
  }

  /** No line of a sequence of one-line groups holds a newline. */
  lemma {:induction false} LinesOfFree(groups: seq<Group>)
    requires forall i | 0 <= i < |groups| :: OneLineGroup(groups[i])
    ensures PartsFree(LinesOf(groups), '\n')
  {
    if groups != [] {
      LinesOfFree(groups[1..]);
      GroupLinesFree(groups[0]);
      PartsFreeAppend(GroupLines(groups[0]), LinesOf(groups[1..]), '\n');
    }
  }

  // ---------------------------------------------------------------------------
  // The writers

  /** What each writer hands to its serialiser. */
  datatype Output =
    | Document(text: string)
    | JsonRecords(records: seq<seq<Field>>)
    | YamlRecords(records: seq<seq<Field>>)
    | CsvTable(rows: seq<seq<Cell>>)
    | RawDump(commits: seq<CommitInfo>)

  /** The `prepare_data` of each writer; for the raw writer, the commits its `write` dumps. */
  function PrepareData(w: Writer, commits: seq<CommitInfo>): Output {
    match w
    case MarkdownWriter(_, config) => Document(MarkdownText(config, commits))
    case JsonWriter(_, config) => JsonRecords(Records(config, commits))
    case YamlWriter(_, config) => YamlRecords(Records(config, commits))
    case CsvWriter(_, config) => CsvTable(CsvRows(config, commits))
    case RawWriter(_, config) => RawDump(Kept(config, commits))
  }

  /** The commits a structured output holds, read back from its records or rows. */
  function Decode(out: Output): Option<seq<CommitInfo>> {
    match out
    case Document(_) => None
    case JsonRecords(records) => FromRecords(records)
    case YamlRecords(records) => FromRecords(records)
    case CsvTable(rows) => FromCsv(rows)
    case RawDump(commits) => Some(commits)
  }

  /** The JSON, YAML, CSV and raw outputs hold exactly the kept commits, in order, one
      record each; all but the raw dump show the type's label instead of the type. */
  lemma StructuredOutput(w: Writer, commits: seq<CommitInfo>)
    requires !w.MarkdownWriter?
    ensures var kept := Kept(w.config, commits);
      Decode(PrepareData(w, commits))
      == Some(if w.RawWriter? then kept else RelabelAll(w.config.typMapping, kept))
  {
    var kept := Kept(w.config, commits);
    match w
    case JsonWriter(_, config) => RecordsRoundTrip(config.typMapping, kept);
    case YamlWriter(_, config) => RecordsRoundTrip(config.typMapping, kept);
    case CsvWriter(_, config) =>
      RowsRoundTrip(config.typMapping, kept);
      assert CsvRows(config, commits)[1..] == RowsOf(config.typMapping, kept);
    case RawWriter(_, _) =>
  }

  /** Under the raw configuration every commit is written, with its own type. */
  lemma RawConfigWritesAll(w: Writer, commits: seq<CommitInfo>)
    requires w.config == RawConfig && !w.MarkdownWriter?
    ensures Decode(PrepareData(w, commits)) == Some(commits)
  {
    FilterAll(commits, NotIgnored(RawConfig));
    StructuredOutput(w, commits);
    assert RelabelAll(RawConfig.typMapping, commits) == commits;
  }

  /** The commits of a group keep their input order. */
  lemma GroupInOrder(a: seq<CommitInfo>, b: seq<CommitInfo>, typ: string)
    ensures OfType(a + b, typ) == OfType(a, typ) + OfType(b, typ)
  {
    FilterAppend(a, b, HasType(typ));
  }

  /** One group per distinct type of the input, headed by its label and holding
      exactly the commits of that type; no group is empty. */
  lemma MarkdownGroups(mapping: map<string, string>, commits: seq<CommitInfo>)
    ensures var groups := Groups(mapping, commits);
      && (forall i, j | 0 <= i < j < |groups| :: groups[i].typ != groups[j].typ)
      && (forall c | c in commits :: exists i | 0 <= i < |groups| :: groups[i].typ == c.typ)
      && (forall i | 0 <= i < |groups| ::
            && groups[i].heading == Label(mapping, groups[i].typ)
            && groups[i].commits == OfType(commits, groups[i].typ)
            && groups[i].commits != []
            && forall c | c in groups[i].commits :: c in commits && c.typ == groups[i].typ)
  {
    var groups := Groups(mapping, commits);
    GroupsCoverTypes(mapping, commits);
    forall i | 0 <= i < |groups|
      ensures groups[i].commits != []
      ensures forall c | c in groups[i].commits :: c in commits && c.typ == groups[i].typ
    {
      GroupNonEmpty(mapping, commits, i);
    }
  }

  /** Every commit's type heads a group. */
  lemma GroupsCoverTypes(mapping: map<string, string>, commits: seq<CommitInfo>)
    ensures var groups := Groups(mapping, commits);
      forall c | c in commits :: exists i | 0 <= i < |groups| :: groups[i].typ == c.typ
  {
    var typs := Distinct(Typs(commits));
    var groups := Groups(mapping, commits);
    TypsAt(commits);
    forall c | c in commits
      ensures exists i | 0 <= i < |groups| :: groups[i].typ == c.typ
    {
      var k :| 0 <= k < |commits| && commits[k] == c;
      assert c.typ in Typs(commits);
      var i :| 0 <= i < |typs| && typs[i] == c.typ;
      assert groups[i].typ == c.typ;
    }
  }

  /** A group holds at least one commit, and only commits of its type. */
  lemma GroupNonEmpty(mapping: map<string, string>, commits: seq<CommitInfo>, i: nat)
    requires i < |Groups(mapping, commits)|
    ensures var g := Groups(mapping, commits)[i];
      && g.commits != []
      && forall c | c in g.commits :: c in commits && c.typ == g.typ
  {
    var typs := Distinct(Typs(commits));
    var t := typs[i];
    assert Groups(mapping, commits)[i].commits == OfType(commits, t);
    assert t in typs;
    assert t in Typs(commits);
    var k :| 0 <= k < |commits| && Typs(commits)[k] == t;
    FilterCount(commits, HasType(t), commits[k]);
    assert commits[k] in multiset(commits);
  }

  /** The commits listed in groups of distinct types `typs`: those whose type is in `typs`. */
  lemma {:induction false} ListedCount(
    mapping: map<string, string>, commits: seq<CommitInfo>, typs: seq<string>, c: CommitInfo)
    requires forall i, j | 0 <= i < j < |typs| :: typs[i] != typs[j]
    ensures multiset(Listed(GroupsOf(mapping, commits, typs)))[c]
      == if c.typ in typs then multiset(commits)[c] else 0
  {
    var groups := GroupsOf(mapping, commits, typs);
    if typs != [] {
      assert groups[1..] == GroupsOf(mapping, commits, typs[1..]);
      ListedCount(mapping, commits, typs[1..], c);
      FilterCount(commits, HasType(typs[0]), c);
      assert c.typ in typs <==> c.typ == typs[0] || c.typ in typs[1..] by {
        assert typs == [typs[0]] + typs[1..];
      }
    }
  }

  /** Every commit is listed in the Markdown groups exactly as often as it occurs in the input. */
  lemma MarkdownListsEachOnce(mapping: map<string, string>, commits: seq<CommitInfo>)
    ensures multiset(Listed(Groups(mapping, commits))) == multiset(commits)
  {
    var typs := Distinct(Typs(commits));
    TypsAt(commits);
    forall c
      ensures multiset(Listed(Groups(mapping, commits)))[c] == multiset(commits)[c]
    {
      ListedCount(mapping, commits, typs, c);
      if c in commits {
        var k :| 0 <= k < |commits| && commits[k] == c;
        assert c.typ in Typs(commits);
      }
    }
  }

  /** The Markdown writer does not apply `ignore_typs`: an ignored commit is still listed. */
  lemma MarkdownIgnoresIgnoreTyps(config: WriterConfig, commits: seq<CommitInfo>, c: CommitInfo)
    requires c in commits && c.typ in config.ignoreTyps
    ensures var groups := Groups(config.typMapping, commits);
      exists i | 0 <= i < |groups| :: groups[i].typ == c.typ && c in groups[i].commits
    ensures MarkdownText(config, commits) == MarkdownText(config.(ignoreTyps := []), commits)
  {
    var groups := Groups(config.typMapping, commits);
    GroupsCoverTypes(config.typMapping, commits);
    var i :| 0 <= i < |groups| && groups[i].typ == c.typ;
    assert groups[i].commits == OfType(commits, c.typ);
    FilterCount(commits, HasType(c.typ), c);
    assert c in multiset(commits);
    assert config.(ignoreTyps := []).typMapping == config.typMapping;
  }

  /** Splitting the Markdown document at newlines gives the title line, then each
      group's heading, item lines and trailing empty line, group after group; for no
      commits, the title and the empty line its newline leaves. */
  lemma MarkdownLines(config: WriterConfig, commits: seq<CommitInfo>)
    requires forall c | c in commits ::
      && '\n' !in Label(config.typMapping, c.typ)
      && '\n' !in c.scope && '\n' !in c.title && '\n' !in c.author
    ensures var groups := Groups(config.typMapping, commits);
      Split(MarkdownText(config, commits), '\n')
      == [ChangelogHeading] + (if groups == [] then [""] else LinesOf(groups))
  {
    var groups := Groups(config.typMapping, commits);
    HeadingOneLine();
    if groups == [] {
      assert MarkdownText(config, commits) == ChangelogHeading + "\n" + "";
      SplitAfterPrefix(ChangelogHeading, '\n', "");
    } else {
      OneLineGroups(config.typMapping, commits);
      DocumentLines(ChangelogHeading, groups);
    }
  }

  lemma HeadingOneLine()
    ensures '\n' !in ChangelogHeading
  {
  }

  /** Every Markdown group of commits whose fields and labels hold no newline is one-line. */
  lemma OneLineGroups(mapping: map<string, string>, commits: seq<CommitInfo>)
    requires forall c | c in commits ::
      && '\n' !in Label(mapping, c.typ)
      && '\n' !in c.scope && '\n' !in c.title && '\n' !in c.author
    ensures var groups := Groups(mapping, commits);
      forall i | 0 <= i < |groups| :: OneLineGroup(groups[i])
  {
    var groups := Groups(mapping, commits);
    MarkdownGroups(mapping, commits);
    forall i | 0 <= i < |groups| ensures OneLineGroup(groups[i]) {
      var c := groups[i].commits[0];
      assert c in groups[i].commits;
    }
  }

  /** A one-line title, a newline and the texts of one-line groups split into the
      title and the groups' lines. */
  lemma DocumentLines(title: string, groups: seq<Group>)
    requires '\n' !in title
    requires groups != []
    requires forall i | 0 <= i < |groups| :: OneLineGroup(groups[i])
    ensures Split(title + "\n" + Join(GroupTexts(groups), '\n'), '\n') == [title] + LinesOf(groups)
  {
    var body := LinesOf(groups);
    JoinGroupTexts(groups);
    LinesOfFree(groups);
    SplitAfterPrefix(title, '\n', Join(body, '\n'));
    SplitJoin(body, '\n');
  }

  /** Two commits of different types make two groups of one item each, in input order. */
  lemma TwoTypes(mapping: map<string, string>, a: CommitInfo, b: CommitInfo)
    requires a.typ != b.typ
    ensures Groups(mapping, [a, b])
      == [Group(a.typ, Label(mapping, a.typ), [a]), Group(b.typ, Label(mapping, b.typ), [b])]
  {
    var commits := [a, b];
    assert Typs(commits) == [a.typ, b.typ];
    DistinctPair(a.typ, b.typ);
    OfTypePair(a, b, a.typ);
    OfTypePair(a, b, b.typ);
    assert OfType(commits, a.typ) == [a] && OfType(commits, b.typ) == [b];
    var groups := GroupsOf(mapping, commits, [a.typ, b.typ]);
    assert Groups(mapping, commits) == groups;
    assert groups[0] == Group(a.typ, Label(mapping, a.typ), [a]);
    assert groups[1] == Group(b.typ, Label(mapping, b.typ), [b]);
  }

  lemma DistinctPair(x: string, y: string)
    requires x != y
    ensures Distinct([x, y]) == [x, y]
  {
    assert [x, y][..1] == [x];
    assert Distinct([x]) == [x] by {
      assert [x][..0] == [];
    }
  }

  lemma OfTypePair(a: CommitInfo, b: CommitInfo, typ: string)
    ensures OfType([a, b], typ)
      == (if a.typ == typ then [a] else []) + (if b.typ == typ then [b] else [])
  {
    var keep := HasType(typ);
    assert [a, b][1..] == [b] && [b][1..] == [];
    assert keep(a) == (a.typ == typ) && keep(b) == (b.typ == typ);
    assert Filter([b], keep) == (if keep(b) then [b] else []) + Filter([], keep);
  }

  /** A feature and a fix under the default configuration: two groups, headed
      `Features` and `Bug Fixes`, each with one item. */
  lemma DefaultFeatureAndFix(feature: CommitInfo, fix: CommitInfo)
    requires feature.typ == "feat" && fix.typ == "fix"
    ensures Groups(DefaultConfig.typMapping, [feature, fix])
      == [Group("feat", "Features", [feature]), Group("fix", "Bug Fixes", [fix])]
  {
    TwoTypes(DefaultConfig.typMapping, feature, fix);
  }
}
