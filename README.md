# Conventional-commit changelog parser, modelled in Dafny

The system reads the commits between two git references and parses each
message as a conventional commit. A message has the shape
`type(scope)!: title`, then a blank line, then a body. The system then writes
the resulting records as a changelog in one of five formats: Markdown, JSON,
YAML, CSV or a raw dump.

This project models the two core files:

- `parser/commitlog.py` is modelled by module `CommitLog` (`commitlog.dfy`).
  - `ParseCommitMessage` follows the source's string operations exactly: the
    split on `:`, the split on `(` and `)`, the trailing `!`, the strip, and the
    cut at the first newline.
  - `ParseCommit` and the method `CollectCommits` build the changelog records.
- `parser/file_writer.py` is modelled by module `FileWriter` (`file_writer.dfy`).
  - It holds the writer configuration, the default and raw configurations, the
    format enumeration and its name lookup, and the writer factory.
  - It holds what each writer's `prepare_data` builds: the Markdown text, the
    JSON and YAML records, the CSV rows, and the commits the raw writer dumps.
- `Text` (`text.dfy`) gives Python's `str.split`, `str.join` and `str.strip`.
  It also relates them to "the text before/after the first occurrence of a
  character".
- `Sequences` (`sequences.dfy`) gives the filtering comprehension and the
  first-seen distinct values.
- `Wrappers` (`wrappers.dfy`) gives `Option` and `Result`.

The serialisers (json, yaml, csv and the dict repr) are not modelled as bytes.
Each structured output is modelled as the list of records or rows handed to
its serialiser. A decoder `FileWriter.Decode` reads the commits back from
those, and the round-trip lemmas state what the output holds.

The model follows the code; these behaviours of the code are easy to miss:

- The Markdown writer does not apply `ignore_typs`. Ignored commits are still
  listed (`MarkdownIgnoresIgnoreTyps`).
- The raw writer filters by `ignore_typs` but writes each commit with its raw
  type, not its label.
- The `committer` field holds the author's e-mail address
  (commitlog.py:86-87).
- The scope is cut at the first `(` or `)` after the first `(`.
- A `!` after the scope, as in `feat(api)!:`, is not seen. Such a commit is not
  breaking and has type `feat` (`ParseBangAfterScopeExample`).
- The title is stripped on both sides and then cut at its first newline.
- Empty input gives `## Changelog\n` for Markdown, not an empty document. It
  gives the header row alone for CSV.

## Model

| member | source | states |
|---|---|---|
| Text.SplitFieldsFree | parser/commitlog.py:62 | no field of `s.split(c)` contains `c` |
| Text.JoinSplit | parser/commitlog.py:77 | `c.join(s.split(c))` gives back `s` |
| Text.SplitJoin | parser/commitlog.py:77 | splitting a join of separator-free parts gives back the parts |
| Text.StripShape | parser/commitlog.py:72 | `s.strip()` is a slice of `s` with only whitespace before and after it, and it is empty or starts and ends with a non-space |
| Text.StripExact | parser/commitlog.py:72 | `strip` removes exactly the whitespace around a text whose ends are not whitespace |
| Text.StripKeepsOut | parser/commitlog.py:72 | `strip` adds no character: a character not in `s` is not in `s.strip()` |
| Text.SplitFields | parser/commitlog.py:62-64 | the first two fields of `s.split(c)` are the text before the first `c`, and the text between the first and second `c` |
| Text.JoinAppend | parser/file_writer.py:120-125 | joining two non-empty lists of pieces is joining each and putting one separator between the two |
| Text.JoinTail | parser/commitlog.py:77 | `c.join(s.split(c)[1:])` is the text after the first `c`, or empty when `s` has no `c` |
| CommitLog.ParseWithoutColon | parser/commitlog.py:57-61 | a message without a colon gives empty type and scope, the whole message as title and as message, and no breaking change |
| CommitLog.ParseType | parser/commitlog.py:62-70 | the type is the token before the first colon (and before the first `(` when both parentheses are present) less one trailing `!`; the flag is set exactly when that `!` is there; the type never holds a colon |
| CommitLog.ParseScope | parser/commitlog.py:62-66 | the scope is empty unless the head has both `(` and `)`; otherwise it is the text after the first `(` up to the next `(` or `)`, or to the end of the head, and holds no parenthesis or colon |
| CommitLog.ParseTitle | parser/commitlog.py:72-74 | the title is the first line of the stripped text between the first and second colons; it holds no newline or colon and starts with no whitespace |
| CommitLog.ParseMessage | parser/commitlog.py:76-77 | the message is the stripped text after the first newline, or empty when there is none |
| CommitLog.ParseWithHead | parser/commitlog.py:57-78 | `head: title` with nothing or a newline-led body after it gives the head's type, scope and flag, the title unchanged, and the stripped body |
| CommitLog.ParseScoped | parser/commitlog.py:57-78 | `type(scope)tail: title` + newline + body parses back to type, scope, title and stripped body; text after `)` is ignored and does not set the flag |
| CommitLog.ParseBreaking | parser/commitlog.py:68-70 | `type!: title` is a breaking change of `type` with no scope and no message |
| CommitLog.ParseFeatureExample | parser/commitlog.py:57-78 | `feat(parser): add yaml writer`, a blank line and `Closes #12` give feat / parser / add yaml writer / Closes #12, not breaking |
| CommitLog.ParseBreakingExample | parser/commitlog.py:68-70 | `fix!: handle empty repo` is a breaking fix |
| CommitLog.ParseScopedLine | parser/commitlog.py:57-78 | a one-line `type(scope)tail: title` parses back to type, scope and title with an empty message; text after `)` is ignored and does not set the flag |
| CommitLog.ParseBangAfterScopeExample | parser/commitlog.py:62-70 | `feat(api)!: drop v1` is not breaking: the `!` after the scope is dropped with the text after `)` |
| CommitLog.ParseCommit | parser/commitlog.py:81-91 | the record holds the parsed message, the author's name, the author's e-mail as committer, the commit time and the hash |
| CommitLog.CollectCommits | parser/commitlog.py:41-45 | one record per visited commit, in visit order, each the parse of that commit |
| FileWriter.FromFormat | parser/file_writer.py:77-88 | a name gives a format exactly when it is one of the five names, and the format carries that name; any other name gives the error carrying that name, as the enumeration's `ValueError` does |
| FileWriter.FromFormatValue | parser/file_writer.py:77-88 | each format is selected by its own name |
| FileWriter.CreateWriter | parser/file_writer.py:90-104 | the factory returns a writer of the requested format, with the given path and configuration |
| FileWriter.RelabelAll | parser/file_writer.py:163 | each commit's type is replaced by its label, which is the type itself when unmapped; nothing else changes |
| FileWriter.Kept | parser/file_writer.py:173-174 | every kept commit comes from the input and has a type not in `ignore_typs` |
| FileWriter.KeptExactly | parser/file_writer.py:216-217 | a commit whose type is not ignored is kept as often as it occurs; an ignored one is never kept |
| FileWriter.KeptInOrder | parser/file_writer.py:258-259 | filtering respects concatenation, so kept commits keep their input order |
| FileWriter.RecordFields | parser/file_writer.py:161-172 | a record has the nine keys in the fixed order; the type value is the label; the record reads back as the relabelled commit |
| FileWriter.RecordsRoundTrip | parser/file_writer.py:161-175 | reading the JSON/YAML records back gives the relabelled commits, in order |
| FileWriter.RowsRoundTrip | parser/file_writer.py:246-260 | reading the CSV data rows back gives the relabelled commits, in order |
| FileWriter.CsvRows | parser/file_writer.py:243-260 | the CSV table is the header row followed by exactly one row per kept commit |
| FileWriter.StructuredOutput | parser/file_writer.py:158-277 | the JSON, YAML, CSV and raw outputs hold exactly the kept commits, in order, relabelled except in the raw dump |
| FileWriter.RawConfigWritesAll | parser/file_writer.py:60-65 | under the raw configuration every commit is written, with its own type |
| FileWriter.GroupInOrder | parser/file_writer.py:114-118 | the commits of a group keep their input order |
| FileWriter.MarkdownGroups | parser/file_writer.py:114-126 | one group per distinct type; every commit's type has a group; each group is headed by the label and holds exactly the commits of its type, and is never empty |
| FileWriter.MarkdownListsEachOnce | parser/file_writer.py:114-126 | across the groups, each commit is listed exactly as often as it occurs in the input |
| FileWriter.MarkdownIgnoresIgnoreTyps | parser/file_writer.py:112-128 | a commit of an ignored type is still listed, and the document does not depend on `ignore_typs` |
| FileWriter.ItemLine | parser/file_writer.py:123 | an item starts with `- ` and ends with `title by author`; it is exactly `- title by author` when the scope is empty; otherwise `scope: ` sits between the two and nothing else does |
| FileWriter.GroupText | parser/file_writer.py:121-125 | a group's text starts with `### ` + label + newline and ends with a newline |
| FileWriter.GroupTextSplit | parser/file_writer.py:121-125 | split at newlines, a group's text is its `### label` heading, then one item line per commit of the group in order, then the empty piece its closing newline leaves; this holds when the group has items and its heading, scopes, titles and authors hold no newline |
| FileWriter.MarkdownText | parser/file_writer.py:119-128 | the document starts with `## Changelog` + newline, and is exactly that for no commits |
| FileWriter.DocumentLines | parser/file_writer.py:119-127 | a title line, a newline and the group texts joined by newlines split into the title and each group's lines, group after group |
| FileWriter.MarkdownLines | parser/file_writer.py:112-128 | split at newlines, the document is `## Changelog`, then each group's heading, item lines and empty piece, in group order; with no commits it is `## Changelog` and one empty piece; this holds when labels, scopes, titles and authors hold no newline |
| FileWriter.TwoTypes | parser/file_writer.py:114-126 | two commits of different types give two one-item groups, in input order |
| FileWriter.DefaultFeatureAndFix | parser/file_writer.py:43-58 | with the default mapping, a feature and a fix are grouped under `Features` and `Bug Fixes` |

## Left out

- The command-line front end (`parser.py`) and repository cloning are not part of this model.
- The git range walk (`repo.iter_commits`) is I/O. `CollectCommits` takes the visited commits as a sequence, in the walk's order.
- The commit time is a string that is already formatted; `isoformat` is not modelled.
- Each writer's `write` opens and writes a file. That I/O is left out; `PrepareData` models the data each one writes.
- The JSON, YAML and CSV byte formats (quoting, escaping, indentation, and the key order in YAML, which `yaml.dump` sorts alphabetically) and the raw writer's dict repr are left out. The "fixed order" of `RecordFields` is the order of the dict handed to the serialiser, not of the keys in the YAML file. The outputs are modelled as the records or rows handed to those serialisers.
- FileWriter.Groups: Python iterates a `set` of types in an order the program does not fix. The model lists groups in first-seen order. Every lemma about groups except `TwoTypes` and `DefaultFeatureAndFix` holds for any order. Those two state the first-seen order.
- FileWriter.MarkdownLines: a label, scope, title or author holding a newline breaks its line into several; the lemma states the line structure only when none does.
- `group_by_scope` and `break_change_mark` are carried in `WriterConfig`, but no writer reads them, so they affect no output.
- Text.Strip: only space, `\t`, `\n`, `\r`, `\x0b` and `\x0c` are stripped. Python's `strip` also removes `\x1c`–`\x1f` and the other Unicode whitespace.
- The default `config` argument of the writers and of `create_writer` is passed explicitly (`DefaultConfig`).
- The `else` branch of `create_writer` cannot be reached with a `FileFormat`. The closed datatype leaves it out.
