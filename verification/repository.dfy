/**
 * The version-control store behind `commit_all`, seen through a small
 * interface: a working tree, the tree recorded at HEAD, the commits made so
 * far, and the configured authoring identity. Trees map paths to file text;
 * `git add -A` stages the whole working tree.
 */
module Repository {
  import opened Wrappers

  type Path = string
  type Tree = map<Path, string>

  datatype Identity = Identity(name: string, email: string)

  datatype Commit = Commit(message: string, author: Identity, authorDate: int, committerDate: int, snapshot: Tree)

  /** `log` holds commits oldest first; `user` is what `git config user.*` holds. */
  datatype Repo = Repo(work: Tree, head: Tree, log: seq<Commit>, user: Option<Identity>)

  /** The content mutators of the phases: overwrite a file, append to a file,
      or rewrite a file with the text that reading it yields. */
  datatype Mutation =
    | WriteFile(path: Path, content: string)
    | AppendFile(path: Path, content: string)
    | RewriteFile(path: Path)

  /** The text of a file, empty when it does not exist yet. */
  function Contents(t: Tree, p: Path): string {
    if p in t then t[p] else ""
  }

  /** What reading a file in text mode yields: every `\r\n` pair and every
      lone `\r` becomes `\n`. */
  function ReadText(s: string): (r: string)
    ensures '\r' !in r
    ensures '\r' !in s ==> r == s
    ensures |r| <= |s|
    decreases |s|
  {
    if |s| == 0 then []
    else if s[0] == '\r' then
      if |s| >= 2 && s[1] == '\n' then ['\n'] + ReadText(s[2..]) else ['\n'] + ReadText(s[1..])
    else [s[0]] + ReadText(s[1..])
  }

  /** Drops every `\r` that is immediately followed by `\n`. */
  function DropCrBeforeLf(s: string): string
    decreases |s|
  {
    if |s| == 0 then []
    else if |s| >= 2 && s[0] == '\r' && s[1] == '\n' then DropCrBeforeLf(s[1..])
    else [s[0]] + DropCrBeforeLf(s[1..])
  }

  /** Replaces every `\r` by `\n`, one character at a time. */
  function CrToLf(s: string): (r: string)
    ensures |r| == |s|
  {
    seq(|s|, i requires 0 <= i < |s| => if s[i] == '\r' then '\n' else s[i])
  }

  /** Text-mode reading is the two-stage newline translation: first every
      `\r\n` loses its `\r`, then every remaining `\r` becomes `\n`. */
  lemma {:induction false} ReadTextTranslatesNewlines(s: string)
    ensures ReadText(s) == CrToLf(DropCrBeforeLf(s))
    decreases |s|
  {
    if |s| >= 2 && s[0] == '\r' && s[1] == '\n' {
      assert s[1..][1..] == s[2..];
      assert DropCrBeforeLf(s) == ['\n'] + DropCrBeforeLf(s[2..]);
      ReadTextTranslatesNewlines(s[2..]);
      CrToLfAppend(['\n'], DropCrBeforeLf(s[2..]));
    } else if |s| > 0 {
      assert DropCrBeforeLf(s) == [s[0]] + DropCrBeforeLf(s[1..]);
      ReadTextTranslatesNewlines(s[1..]);
      CrToLfAppend([s[0]], DropCrBeforeLf(s[1..]));
    }
  }

  lemma CrToLfAppend(a: string, b: string)
    ensures CrToLf(a + b) == CrToLf(a) + CrToLf(b)
  {
    assert forall i :: 0 <= i < |a + b| ==> CrToLf(a + b)[i] == (CrToLf(a) + CrToLf(b))[i];
  }

  /** Reading is a fixed point exactly on text without carriage returns. */
  lemma ReadTextUnchangedIff(s: string)
    ensures ReadText(s) == s <==> '\r' !in s
    ensures ReadText(ReadText(s)) == ReadText(s)
  {
  }

  /** Applies a mutator to the working tree. Rewriting a file that does not
      exist fails with that path, as reading it does; rewriting one that
      exists stores what reading it yields. */
  function Apply(t: Tree, m: Mutation): (r: Result<Tree, Path>)
    ensures r.Failure? <==> m.RewriteFile? && m.path !in t
    ensures r.Failure? ==> r.error == m.path
    ensures r.Success? ==> r.value.Keys == t.Keys + {m.path}
    ensures r.Success? ==> forall q :: q in t && q != m.path ==> r.value[q] == t[q]
    ensures r.Success? && m.WriteFile? ==> r.value[m.path] == m.content
    ensures r.Success? && m.AppendFile? ==> r.value[m.path] == Contents(t, m.path) + m.content
    ensures r.Success? && m.RewriteFile? ==> r.value[m.path] == ReadText(t[m.path])
    ensures r.Success? && m.RewriteFile? ==> (r.value == t <==> '\r' !in t[m.path])
  {
    match m
    case WriteFile(p, c) => Success(t[p := c])
    case AppendFile(p, c) => Success(t[p := Contents(t, p) + c])
    case RewriteFile(p) =>
      if p in t then Success(t[p := ReadText(t[p])]) else Failure(p)
  }

  /** `commit_all`: configure the author, stage everything, and commit only
      when the staged tree differs from HEAD. Both dates of the commit are
      `when`. Returns the new repository and whether a commit was made. */
  function CommitAll(repo: Repo, message: string, when: int, author: Identity): (r: (Repo, bool))
    ensures r.1 <==> repo.work != repo.head
    ensures r.0.work == repo.work && r.0.user == Some(author)
    ensures r.0.head == repo.work
    ensures !r.1 ==> r.0.head == repo.head && r.0.log == repo.log
    ensures r.1 ==> |r.0.log| == |repo.log| + 1 && r.0.log[..|repo.log|] == repo.log
    ensures r.1 ==> var c := r.0.log[|repo.log|];
      c.message == message && c.author == author && c.snapshot == repo.work
      && c.authorDate == when && c.committerDate == when
  {
    var configured := repo.(user := Some(author));
    if configured.work == configured.head then (configured, false)
    else
      var c := Commit(message, author, when, when, configured.work);
      (configured.(head := configured.work, log := configured.log + [c]), true)
  }

  /** HEAD is the snapshot of the newest commit, and every commit carries the
      same author and committer date. */
  predicate Consistent(repo: Repo) {
    && (|repo.log| > 0 ==> repo.head == repo.log[|repo.log| - 1].snapshot)
    && forall i :: 0 <= i < |repo.log| ==> repo.log[i].authorDate == repo.log[i].committerDate
  }

  lemma CommitAllKeepsConsistent(repo: Repo, message: string, when: int, author: Identity)
    requires Consistent(repo)
    ensures Consistent(CommitAll(repo, message, when, author).0)
  {
  }

  /** Committing again with nothing changed in between is skipped. */
  lemma CommitAllIdempotent(repo: Repo, m1: string, w1: int, a1: Identity, m2: string, w2: int, a2: Identity)
    ensures var r1 := CommitAll(repo, m1, w1, a1).0;
      var r2 := CommitAll(r1, m2, w2, a2);
      !r2.1 && r2.0.log == r1.log && r2.0.head == r1.head
  {
  }

  /** Rewriting a file with what reading it yields, as the `.gitignore`
      action does, produces a commit once the tree matches HEAD exactly when
      the file holds a carriage return. */
  lemma RewriteIsSkipped(repo: Repo, p: Path, message: string, when: int, author: Identity)
    requires repo.work == repo.head
    requires p in repo.work
    ensures Apply(repo.work, RewriteFile(p)).Success?
    ensures CommitAll(repo.(work := Apply(repo.work, RewriteFile(p)).value), message, when, author).1
            <==> '\r' in repo.work[p]
  {
  }

  /** Applying the same overwrite twice, committing after each, makes at most
      one commit: the second attempt is always skipped. */
  lemma RepeatedWriteCommitsOnce(repo: Repo, p: Path, text: string, w1: int, w2: int, a1: Identity, a2: Identity, msg: string)
    ensures var t1 := Apply(repo.work, WriteFile(p, text)).value;
      var (r1, d1) := CommitAll(repo.(work := t1), msg, w1, a1);
      var t2 := Apply(r1.work, WriteFile(p, text)).value;
      var (r2, d2) := CommitAll(r1.(work := t2), msg, w2, a2);
      !d2 && |r2.log| == |repo.log| + (if d1 then 1 else 0)
  {
    var t1 := Apply(repo.work, WriteFile(p, text)).value;
    var (r1, d1) := CommitAll(repo.(work := t1), msg, w1, a1);
    assert Apply(r1.work, WriteFile(p, text)).value == r1.work;
  }

  /** `ensure_initial_gitignore`: create `.gitignore` with the default text
      only when it is missing; an existing one is left as it is. */
  function EnsureGitignore(t: Tree, defaultText: string): (r: Tree)
    ensures ".gitignore" in r
    ensures ".gitignore" in t ==> r == t
    ensures ".gitignore" !in t ==> r[".gitignore"] == defaultText && r.Keys == t.Keys + {".gitignore"}
    ensures forall q :: q in t ==> q in r && r[q] == t[q]
  {
    if ".gitignore" in t then t else t[".gitignore" := defaultText]
  }
}
