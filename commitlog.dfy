/** Conventional-commit messages and the commit records built from them
    (parser/commitlog.py). */
module CommitLog {
  import opened Text

  /** A commit as the history walk exposes it: its raw message, its author,
      its commit time already rendered as an ISO-8601 string, and its hash. */
  datatype Commit = Commit(
    message: string,
    authorName: string,
    authorEmail: string,
    committedTime: string,
    hexsha: string)

  /** The parts of a conventional-commit message. */
  datatype CommitMessage = CommitMessage(
    typ: string,
    scope: string,
    title: string,
    message: string,
    breakChange: bool)

  /** One record of the changelog. `committer` holds the author's e-mail address. */
  datatype CommitInfo = CommitInfo(
    typ: string,
    scope: string,
    title: string,
    message: string,
    author: string,
    committer: string,
    commitTime: string,
    hash: string,
    breakChange: bool)

  /** `parse_commit_message`: splits on colons, parentheses, `!` and newlines. */
  function ParseCommitMessage(msg: string): CommitMessage
  {
    if ':' !in msg then CommitMessage("", "", msg, msg, false)
    else
      var typeScope := Split(msg, ':')[0];
      var typ0 := TypeOf(typeScope);
      var breakChange := EndsWithBang(typ0);
      var typ := if breakChange then typ0[..|typ0| - 1] else typ0;
      CommitMessage(typ, ScopeOf(typeScope), TitleOf(msg), MessageOf(msg), breakChange)
  }

  /** The type token of the text before the first colon, `!` included. */
  function TypeOf(typeScope: string): string {
    if '(' in typeScope && ')' in typeScope then Split(typeScope, '(')[0] else typeScope
  }

  /** The scope held by the text before the first colon. */
  function ScopeOf(typeScope: string): string {
    if '(' in typeScope && ')' in typeScope then Split(Split(typeScope, '(')[1], ')')[0] else ""
  }

  /** The title: the stripped second colon-separated field, cut at its first newline. */
  function TitleOf(msg: string): string
    requires ':' in msg
  {
    var title := Strip(Split(msg, ':')[1]);
    if '\n' in title then Split(title, '\n')[0] else title
  }

  /** The message: every line after the first, joined again and stripped. */
  function MessageOf(msg: string): string {
    Strip(Join(Split(msg, '\n')[1..], '\n'))
  }

  predicate EndsWithBang(s: string) {
    |s| > 0 && s[|s| - 1] == '!'
  }

  /** The head of a message carries a scope when it has both parentheses. */
  predicate HasScope(head: string) {
    '(' in head && ')' in head
  }

  /** The type token of a head before its trailing `!` is removed. */
  function TypeToken(head: string): string {
    if HasScope(head) then Before(head, '(') else head
  }

  /** `parse_commit`: the parsed message together with the commit's provenance. */
  function ParseCommit(commit: Commit): (info: CommitInfo)
    ensures info.author == commit.authorName && info.committer == commit.authorEmail
    ensures info.commitTime == commit.committedTime && info.hash == commit.hexsha
    ensures CommitMessage(info.typ, info.scope, info.title, info.message, info.breakChange)
      == ParseCommitMessage(commit.message)
  {
    var m := ParseCommitMessage(commit.message);
    CommitInfo(m.typ, m.scope, m.title, m.message,
               commit.authorName, commit.authorEmail, commit.committedTime, commit.hexsha,
               m.breakChange)
  }

  /** `collect_commits` over the commits the range walk visits, in visit order. */
  method CollectCommits(visited: seq<Commit>) returns (commits: seq<CommitInfo>)
    ensures |commits| == |visited|
    ensures forall i | 0 <= i < |visited| :: commits[i] == ParseCommit(visited[i])
  {
    commits := [];
    for i := 0 to |visited|
      invariant |commits| == i
      invariant forall k | 0 <= k < i :: commits[k] == ParseCommit(visited[k])
    {
      commits := commits + [ParseCommit(visited[i])];
    }
  }

  /** A message without a colon is unstructured: it is both title and message. */
  lemma ParseWithoutColon(msg: string)
    requires ':' !in msg
    ensures ParseCommitMessage(msg) == CommitMessage("", "", msg, msg, false)
  {
  }

  /** The type is the head's type token less one trailing `!`, which sets the
      breaking-change flag; it never holds a colon, nor a `(` when a scope was found. */
  lemma ParseType(msg: string)
    requires ':' in msg
    ensures var r := ParseCommitMessage(msg);
      var token := TypeToken(Before(msg, ':'));
      && r.breakChange == EndsWithBang(token)
      && r.typ == (if r.breakChange then token[..|token| - 1] else token)
      && ':' !in r.typ
      && (HasScope(Before(msg, ':')) ==> '(' !in r.typ)
  {
    var head := Before(msg, ':');
    SplitFields(msg, ':');
    HeadToken(head);
    var token := TypeToken(head);
    var r := ParseCommitMessage(msg);
    assert r.breakChange == EndsWithBang(token);
    assert r.typ == (if r.breakChange then token[..|token| - 1] else token);
  }

  /** The type token of a colon-free head is a colon-free prefix of it, cut before
      the first `(` when the head has a scope. */
  lemma HeadToken(head: string)
    requires ':' !in head
    ensures TypeOf(head) == TypeToken(head)
    ensures ':' !in TypeToken(head)
    ensures HasScope(head) ==> '(' !in TypeToken(head)
  {
    SplitFields(head, '(');
    var token := TypeToken(head);
    assert token == head[..|token|];
  }

  /** The scope is empty unless the head has both parentheses; otherwise it is the
      text after the first `(` up to the next `(` or `)`, or to the end of the head. */
  lemma ParseScope(msg: string)
    requires ':' in msg
    ensures var r := ParseCommitMessage(msg);
      var head := Before(msg, ':');
      && (!HasScope(head) ==> r.scope == "")
      && (HasScope(head) ==>
            var rest := After(head, '(');
            && |r.scope| <= |rest| && r.scope == rest[..|r.scope|]
            && '(' !in r.scope && ')' !in r.scope && ':' !in r.scope
            && (|r.scope| == |rest| || rest[|r.scope|] == '(' || rest[|r.scope|] == ')'))
  {
    var head := Before(msg, ':');
    SplitFields(msg, ':');
    assert ParseCommitMessage(msg).scope == ScopeOf(head);
    HeadScope(head);
  }

  /** The scope read from a colon-free head. */
  lemma HeadScope(head: string)
    requires ':' !in head
    ensures !HasScope(head) ==> ScopeOf(head) == ""
    ensures HasScope(head) ==>
      var rest := After(head, '('); var scope := ScopeOf(head);
      && |scope| <= |rest| && scope == rest[..|scope|]
      && '(' !in scope && ')' !in scope && ':' !in scope
      && (|scope| == |rest| || rest[|scope|] == '(' || rest[|scope|] == ')')
  {
    if HasScope(head) {
      SplitFields(head, '(');
      var rest := After(head, '(');
      var upToParen := Before(rest, '(');
      SplitFields(upToParen, ')');
      var scope := Before(upToParen, ')');
      assert ScopeOf(head) == scope;
      assert scope == rest[..|scope|];
      assert ':' !in rest by {
        assert head == Before(head, '(') + ['('] + rest;
      }
      assert ':' !in scope;
    }
  }

  /** The title is the first line of the stripped text between the first and the
      second colon: no newline, no colon and no leading whitespace. */
  lemma ParseTitle(msg: string)
    requires ':' in msg
    ensures var r := ParseCommitMessage(msg);
      && r.title == Before(Strip(Before(After(msg, ':'), ':')), '\n')
      && '\n' !in r.title && ':' !in r.title
      && (r.title == [] || !IsSpace(r.title[0]))
  {
    assert ParseCommitMessage(msg).title == TitleOf(msg);
    TitleFirstLine(msg);
  }

  /** The title read from a message with a colon. */
  lemma TitleFirstLine(msg: string)
    requires ':' in msg
    ensures var title := TitleOf(msg);
      && title == Before(Strip(Before(After(msg, ':'), ':')), '\n')
      && '\n' !in title && ':' !in title
      && (title == [] || !IsSpace(title[0]))
  {
    SplitFields(msg, ':');
    var field := Before(After(msg, ':'), ':');
    var title0 := Strip(field);
    StripShape(field);
    StripKeepsOut(field, ':');
    SplitFields(title0, '\n');
    var title := Before(title0, '\n');
    assert ':' !in title0;
    assert ':' !in title by {
      assert title == title0[..|title|];
    }
  }

  /** The message is the stripped text after the first newline, empty when there is none. */
  lemma ParseMessage(msg: string)
    requires ':' in msg
    ensures ParseCommitMessage(msg).message
      == if '\n' in msg then Strip(After(msg, '\n')) else ""
  {
    MessageOfRest(msg);
    assert ParseCommitMessage(msg).message == MessageOf(msg);
  }

  lemma MessageOfRest(msg: string)
    ensures MessageOf(msg) == if '\n' in msg then Strip(After(msg, '\n')) else ""
  {
    JoinTail(msg, '\n');
    if '\n' !in msg {
      assert MessageOf(msg) == Strip([]);
    }
  }

  /** The parse of a message with a colon, assembled from its parts. */
  lemma ParseFromParts(msg: string, typ0: string, scope: string, title: string, message: string)
    requires ':' in msg
    requires TypeOf(Split(msg, ':')[0]) == typ0 && ScopeOf(Split(msg, ':')[0]) == scope
    requires TitleOf(msg) == title && MessageOf(msg) == message
    ensures var b := EndsWithBang(typ0);
      ParseCommitMessage(msg)
      == CommitMessage(if b then typ0[..|typ0| - 1] else typ0, scope, title, message, b)
  {
  }

  /** The head `type(scope)tail` yields that type token and that scope. */
  lemma ScopedHead(typ: string, scope: string, tail: string)
    requires '(' !in typ && '(' !in scope && ')' !in scope
    ensures var head := typ + "(" + scope + ")" + tail;
      HasScope(head) && TypeOf(head) == typ && ScopeOf(head) == scope
  {
    var head := typ + "(" + scope + ")" + tail;
    assert head == typ + ['('] + (scope + ")" + tail);
    SplitAfterPrefix(typ, '(', scope + ")" + tail);
    assert HasScope(head) by {
      assert head[|typ|] == '(';
      assert head[|typ| + 1 + |scope|] == ')';
    }
    SplitFirstConcat(scope + ")", tail, '(');
    assert scope + ")" + Split(tail, '(')[0] == scope + [')'] + Split(tail, '(')[0];
    SplitAfterPrefix(scope, ')', Split(tail, '(')[0]);
  }

  /** The second colon field of `head: title rest` is ` title` and the start of `rest`. */
  lemma SecondField(head: string, title: string, rest: string)
    requires ':' !in head && ':' !in title
    ensures ':' in head + ": " + title + rest
    ensures Split(head + ": " + title + rest, ':')[1] == " " + title + Before(rest, ':')
  {
    var msg := head + ": " + title + rest;
    assert msg == head + [':'] + (" " + title + rest);
    SplitAfterPrefix(head, ':', " " + title + rest);
    assert ':' !in " " + title;
    SplitFirstConcat(" " + title, rest, ':');
    SplitFields(rest, ':');
  }

  /** Stripping ` title` and a newline-led remainder keeps the title whole. */
  lemma StripTitle(title: string, t: string)
    requires title != [] && !IsSpace(title[0]) && !IsSpace(title[|title| - 1])
    ensures Strip(" " + title + t) == title + RStrip(t)
  {
    assert " " + title + t == " " + (title + t);
    LStripSpaces(" ", title + t);
    RStripKeeps(title, t);
  }

  /** The first line of `title` followed by nothing or a newline is `title`. */
  lemma FirstLineOf(title: string, t: string)
    requires '\n' !in title
    requires t == [] || t[0] == '\n'
    ensures (if '\n' in title + t then Split(title + t, '\n')[0] else title + t) == title
  {
    if t == [] {
      assert title + t == title;
    } else {
      assert title + t == title + ['\n'] + t[1..];
      SplitAfterPrefix(title, '\n', t[1..]);
    }
  }

  /** After a colon-free head and `: `, a trimmed one-line title is read back as is. */
  lemma TitleAfterHead(head: string, title: string, rest: string)
    requires ':' !in head
    requires ':' !in title && '\n' !in title
    requires title != [] && !IsSpace(title[0]) && !IsSpace(title[|title| - 1])
    requires rest == [] || rest[0] == '\n'
    ensures ':' in head + ": " + title + rest
    ensures TitleOf(head + ": " + title + rest) == title
  {
    SecondField(head, title, rest);
    var t := Before(rest, ':');
    StripTitle(title, t);
    var kept := RStrip(t);
    RStripShape(t);
    assert kept == [] || kept[0] == '\n';
    FirstLineOf(title, kept);
  }

  /** The message of `firstLine` + newline + `body` is the stripped body. */
  lemma MessageAfterFirstLine(firstLine: string, body: string)
    requires '\n' !in firstLine
    ensures MessageOf(firstLine + "\n" + body) == Strip(body)
  {
    SplitAfterPrefix(firstLine, '\n', body);
    assert Split(firstLine + "\n" + body, '\n')[1..] == Split(body, '\n');
    JoinSplit(body, '\n');
  }

  /** A message `head: title` followed by nothing or by a newline and a body: the head
      gives type, scope and flag, the title is read back as is, the body is stripped. */
  lemma ParseWithHead(head: string, title: string, rest: string)
    requires ':' !in head && '\n' !in head
    requires ':' !in title && '\n' !in title
    requires title != [] && !IsSpace(title[0]) && !IsSpace(title[|title| - 1])
    requires rest == [] || rest[0] == '\n'
    ensures var typ0 := TypeOf(head);
      var b := EndsWithBang(typ0);
      ParseCommitMessage(head + ": " + title + rest)
      == CommitMessage(if b then typ0[..|typ0| - 1] else typ0, ScopeOf(head), title,
                       if rest == [] then "" else Strip(rest[1..]), b)
  {
    var msg := head + ": " + title + rest;
    HeadBeforeTitle(head, title, rest);
    TitleAfterHead(head, title, rest);
    MessageAfterTitle(head, title, rest);
    ParseFromParts(msg, TypeOf(head), ScopeOf(head), title, MessageOf(msg));
  }

  /** The text before the first colon of `head: title rest` is `head`. */
  lemma HeadBeforeTitle(head: string, title: string, rest: string)
    requires ':' !in head
    ensures ':' in head + ": " + title + rest
    ensures Split(head + ": " + title + rest, ':')[0] == head
  {
    var msg := head + ": " + title + rest;
    assert msg == head + [':'] + (" " + title + rest);
    SplitAfterPrefix(head, ':', " " + title + rest);
  }

  /** The message of a one-line `head: title`, or of one followed by a newline and a body. */
  lemma MessageAfterTitle(head: string, title: string, rest: string)
    requires '\n' !in head && '\n' !in title
    requires rest == [] || rest[0] == '\n'
    ensures MessageOf(head + ": " + title + rest) == if rest == [] then "" else Strip(rest[1..])
  {
    var msg := head + ": " + title + rest;
    if rest == [] {
      assert '\n' !in msg by {
        assert msg == head + ": " + title;
      }
      JoinTail(msg, '\n');
    } else {
      assert msg == (head + ": " + title) + "\n" + rest[1..];
      MessageAfterFirstLine(head + ": " + title, rest[1..]);
    }
  }

  /** A message `type(scope)tail: title` followed by a newline and a body parses back
      to its parts; text between `)` and `:` is ignored and does not mark a breaking change. */
  lemma ParseScoped(typ: string, scope: string, tail: string, title: string, body: string)
    requires ':' !in typ && '(' !in typ && '\n' !in typ
    requires ':' !in scope && '(' !in scope && ')' !in scope && '\n' !in scope
    requires ':' !in tail && '\n' !in tail
    requires ':' !in title && '\n' !in title
    requires title != [] && !IsSpace(title[0]) && !IsSpace(title[|title| - 1])
    ensures var b := EndsWithBang(typ);
      ParseCommitMessage((typ + "(" + scope + ")" + tail) + ": " + title + ("\n" + body))
      == CommitMessage(if b then typ[..|typ| - 1] else typ, scope, title, Strip(body), b)
  {
    var head := typ + "(" + scope + ")" + tail;
    assert ':' !in head && '\n' !in head;
    ScopedHead(typ, scope, tail);
    ParseWithHead(head, title, "\n" + body);
    assert ("\n" + body)[1..] == body;
  }

  /** A one-line message `type(scope)tail: title` parses back to its parts with an empty
      message; text between `)` and `:` is ignored and does not mark a breaking change. */
  lemma ParseScopedLine(typ: string, scope: string, tail: string, title: string)
    requires ':' !in typ && '(' !in typ && '\n' !in typ
    requires ':' !in scope && '(' !in scope && ')' !in scope && '\n' !in scope
    requires ':' !in tail && '\n' !in tail
    requires ':' !in title && '\n' !in title
    requires title != [] && !IsSpace(title[0]) && !IsSpace(title[|title| - 1])
    ensures var b := EndsWithBang(typ);
      ParseCommitMessage((typ + "(" + scope + ")" + tail) + ": " + title)
      == CommitMessage(if b then typ[..|typ| - 1] else typ, scope, title, "", b)
  {
    var head := typ + "(" + scope + ")" + tail;
    assert ':' !in head && '\n' !in head;
    ScopedHead(typ, scope, tail);
    ParseWithHead(head, title, []);
    assert head + ": " + title + [] == head + ": " + title;
  }

  /** A one-line message `type!: title` is a breaking change of that type with no scope. */
  lemma ParseBreaking(typ: string, title: string)
    requires ':' !in typ && '(' !in typ && '\n' !in typ
    requires ':' !in title && '\n' !in title
    requires title != [] && !IsSpace(title[0]) && !IsSpace(title[|title| - 1])
    ensures ParseCommitMessage((typ + "!") + ": " + title) == CommitMessage(typ, "", title, "", true)
  {
    var head := typ + "!";
    assert !HasScope(head);
    assert head[..|head| - 1] == typ;
    ParseWithHead(head, title, []);
    assert head + ": " + title + [] == head + ": " + title;
  }

  /** `feat(parser): add yaml writer` with a body after a blank line. */
  lemma ParseFeatureExample()
    ensures ParseCommitMessage("feat(parser): add yaml writer\n\nCloses #12")
      == CommitMessage("feat", "parser", "add yaml writer", "Closes #12", false)
  {
    FeatureExampleParts();
    ParseScoped("feat", "parser", "", "add yaml writer", "\nCloses #12");
    FeatureExampleBody();
  }

  lemma FeatureExampleBody()
    ensures Strip("\nCloses #12") == "Closes #12"
  {
    assert "\nCloses #12" == "\n" + "Closes #12" + "";
    StripExact("\n", "Closes #12", "");
  }

  lemma FeatureExampleParts()
    ensures "feat(parser): add yaml writer\n\nCloses #12"
      == ("feat" + "(" + "parser" + ")" + "") + ": " + "add yaml writer" + ("\n" + "\nCloses #12")
  {
  }

  /** `fix!: handle empty repo` is a breaking fix. */
  lemma ParseBreakingExample()
    ensures ParseCommitMessage("fix!: handle empty repo")
      == CommitMessage("fix", "", "handle empty repo", "", true)
  {
    BreakingExampleParts();
    ParseBreaking("fix", "handle empty repo");
  }

  lemma BreakingExampleParts()
    ensures "fix!: handle empty repo" == ("fix" + "!") + ": " + "handle empty repo"
  {
  }

  /** A `!` placed after the scope is not seen: `feat(api)!: drop v1` is not breaking. */
  lemma ParseBangAfterScopeExample()
    ensures ParseCommitMessage("feat(api)!: drop v1")
      == CommitMessage("feat", "api", "drop v1", "", false)
  {
    BangAfterScopeParts();
    ParseScopedLine("feat", "api", "!", "drop v1");
  }

  lemma BangAfterScopeParts()
    ensures "feat(api)!: drop v1" == ("feat" + "(" + "api" + ")" + "!") + ": " + "drop v1"
  {
  }
}
