/**
 Proposing an alias from a git checkout: a run of commands, any of which may fail or raise, and
 the clean-up that gives the checkout back. Trees are the engine header and everything else.
 */
module DraftPr {
  import opened Basics
  import opened Alias
  import opened AliasChain

  datatype Tree = Tree(header: seq<string>, rest: int)

  datatype Commit = Root(tree: Tree) | Commit(tree: Tree, parent: Commit)

  datatype Head = OnBranch(name: string) | Detached(at: Commit)

  // ---------- what a command may come to ----------

  datatype Exit = Success | Failure | Raise

  /** A command that does not report success may still have had its effect. */
  datatype Run = Run(exit: Exit, took: bool) {
    predicate Took() { exit == Success || took }
  }

  /** Editing the header may raise before the file is opened for writing, or leave anything in it. */
  datatype Edit = Edited | Unreadable | Cut(left: seq<string>)

  /** One way a run can go. */
  datatype Fate = Fate(
    symbolicRef: Exit, revParse: Exit,
    fetch: Run, fetched: Commit, switchTo: Run, edit: Edit,
    add: Run, commit: Run, push: Run, pushAgain: Run,
    create: Run, created: string, already: bool, view: Exit, viewed: string)
  {
    /** Both questions about the place to go back to came back before the `try`. */
    predicate Started() { symbolicRef != Raise && revParse != Raise }

    /** The commands up to the commit succeed, and the header can be edited. */
    predicate Prepares() {
      && fetch.exit == Success && switchTo.exit == Success && edit == Edited
      && add.exit == Success && commit.exit == Success
    }

    /** One of the two pushes succeeds, and the draft is made. */
    predicate Publishes() {
      && (push.exit == Success || (push.exit == Failure && pushAgain.exit == Success))
      && create.exit == Success
    }
  }

  datatype Verdict = Url(url: string) | NoUrl | Raised

  predicate Answered(url: string, isPrUrl: string -> bool) { url != "" && isPrUrl(url) }

  /** What is in index and worktree at the start: the commit's tree, what is staged, the header on disk. */
  datatype Start = Start(from: Commit, staged: Tree, work: seq<string>) {
    /** Git keeps a part as it is where the switch would not change it, or where the change is already staged. */
    predicate KeepsHeader(base: Commit) {
      base.tree.header == from.tree.header || base.tree.header == staged.header
    }

    /** The header that the line is added to, and the rest that is committed with it. */
    function Under(base: Commit): seq<string> { if KeepsHeader(base) then work else base.tree.header }
    function Beside(base: Commit): int { if base.tree.rest == from.tree.rest then staged.rest else base.tree.rest }
  }

  /** A commit of the proposed line on a base, with whatever the switch kept. */
  predicate CommittedOn(c: Commit, base: Commit, start: Start, name: string, token: string) {
    && c.Commit? && c.parent == base
    && Applied(start.Under(base), name, token) == Ok(c.tree.header) && c.tree.header != start.Under(base)
    && c.tree.rest == start.Beside(base)
  }

  /** The commit that should be proposed: the base with exactly one line more in the header. */
  predicate IsProposal(c: Commit, base: Commit, name: string, token: string) {
    && c.Commit? && c.parent == base
    && Applied(base.tree.header, name, token) == Ok(c.tree.header) && c.tree.header != base.tree.header
    && c.tree.rest == base.tree.rest
  }

  /** The header does not mention the name and has a return to insert before. */
  predicate Proposable(header: seq<string>, name: string) { !HeaderHas(header, name) && LastReturn(header) != 0 }

  function BranchOf(name: string): string { "census/auto-map-" + name }

  class Checkout {
    var head: Head
    var branches: map<string, Commit>
    var index: Tree
    var work: seq<string>
    var originMain: Commit
    var remote: map<string, Commit>
    var drafts: set<string>

    ghost predicate Valid()
      reads this
    {
      head.OnBranch? ==> head.name in branches
    }

    function HeadCommit(): Commit
      requires Valid()
      reads this
    {
      match head case OnBranch(b) => branches[b] case Detached(c) => c
    }

    /** Index and header are those of the current commit. */
    ghost predicate Clean()
      requires Valid()
      reads this
    {
      index == HeadCommit().tree && work == index.header
    }

    // ---------- the git commands ----------

    /** Changed in index or worktree. */
    predicate HeaderDirty()
      requires Valid()
      reads this
    {
      index.header != HeadCommit().tree.header || work != HeadCommit().tree.header
    }

    function Now(): Start
      requires Valid()
      reads this
    {
      Start(HeadCommit(), index, work)
    }

    /** A switch keeps a part that it would not change or that is staged as in the target, replaces one
        that is not changed, and otherwise refuses. */
    predicate Refuses(target: Commit)
      requires Valid()
      reads this
    {
      || (!Now().KeepsHeader(target) && HeaderDirty())
      || (target.tree.rest != HeadCommit().tree.rest && target.tree.rest != index.rest && index.rest != HeadCommit().tree.rest)
    }

    /** Index and header follow to the target. */
    method Land(target: Commit)
      requires Valid()
      modifies this`index, this`work
      ensures work == old(Now().Under(target))
      ensures index.header == if old(Now().KeepsHeader(target)) then old(index.header) else target.tree.header
      ensures index.rest == old(Now().Beside(target))
    {
      var start := Now();
      index := Tree(if start.KeepsHeader(target) then index.header else target.tree.header, start.Beside(target));
      work := start.Under(target);
    }

    /** `git switch -C`: makes or rebuilds the branch at origin's main and moves there. */
    method SwitchCreate(branch: string, run: Run) returns (exit: Exit)
      requires Valid()
      modifies this`head, this`branches, this`index, this`work
      ensures Valid()
      // It goes through unless the header would change and is changed, or the rest would and is staged
      // neither as it is nor as it will be.
      ensures var base := originMain.tree; var tree := old(HeadCommit()).tree;
              var keeps := base.header == tree.header || base.header == old(index.header);
              var passes := && (keeps || (old(index.header) == tree.header && old(work) == tree.header))
                            && (base.rest == tree.rest || old(index.rest) == base.rest || old(index.rest) == tree.rest);
              && exit == (if run.exit == Success && !passes then Failure else run.exit)
              && (if passes && run.Took() then
                    && head == OnBranch(branch) && branches == old(branches)[branch := originMain]
                    && work == (if keeps then old(work) else base.header)
                    && index.header == (if keeps then old(index.header) else base.header)
                    && index.rest == (if base.rest == tree.rest then old(index.rest) else base.rest)
                  else
                    head == old(head) && branches == old(branches) && index == old(index) && work == old(work))
    {
      if Refuses(originMain) { return if run.exit == Success then Failure else run.exit; }
      if run.Took() {
        Land(originMain);
        branches := branches[branch := originMain];
        head := OnBranch(branch);
      }
      return run.exit;
    }

    /** The commit a switch to this place would go to. */
    function Target(dest: Head): Commit
      requires dest.OnBranch? ==> dest.name in branches
      reads this
    {
      match dest case OnBranch(b) => branches[b] case Detached(c) => c
    }

    /** `git switch` to a branch or, detached, to a commit. */
    method Switch(dest: Head)
      requires Valid() && (dest.OnBranch? ==> dest.name in branches)
      modifies this`head, this`index, this`work
      ensures Valid()
      ensures var target := old(Target(dest));
              if old(Refuses(Target(dest))) then head == old(head) && index == old(index) && work == old(work)
              else
                && head == dest
                && work == old(Now().Under(Target(dest)))
                && index.header == (if old(Now().KeepsHeader(Target(dest))) then old(index.header) else target.tree.header)
                && index.rest == old(Now().Beside(Target(dest)))
    {
      var target := Target(dest);
      if Refuses(target) { return; }
      Land(target);
      head := dest;
    }

    /** `git restore --staged --worktree --source=HEAD` on the header. */
    method Restore()
      requires Valid()
      modifies this`index, this`work
      ensures work == index.header == HeadCommit().tree.header && index.rest == old(index.rest)
    {
      var header := HeadCommit().tree.header;
      index := index.(header := header);
      work := header;
    }

    // ---------- the header edit ----------

    /** None when it raises, otherwise whether the alias was new. */
    method EditHeader(name: string, token: string, edit: Edit) returns (changed: Option<bool>)
      modifies this`work
      ensures changed.Some? && changed.value ==> Applied(old(work), name, token) == Ok(work) && work != old(work)
      ensures changed.Some? && !changed.value ==> work == old(work) && HeaderHas(old(work), name)
      ensures edit.Edited? && Proposable(old(work), name) ==> changed == Some(true)
    {
      if edit.Unreadable? { return None; }
      if HeaderHas(work, name) { return Some(false); }
      match Applied(work, name, token)
      case Err(_) => return None;
      case Ok(new') =>
        if edit.Cut? {
          work := edit.left;
          return None;
        }
        assert |new'| == |work| + 1;
        work := new';
        return Some(true);
    }

    // ---------- the run ----------

    /** The commit of the staged tree on the current branch. */
    method CommitIndex(run: Run)
      requires Valid() && head.OnBranch?
      modifies this`branches
      ensures Valid()
      ensures branches == if run.Took() then old(branches)[head.name := Commit(index, old(HeadCommit()))] else old(branches)
    {
      if run.Took() { branches := branches[head.name := Commit(index, HeadCommit())]; }
    }

    /** Fetch, switch, edit, add, commit: up to a commit known to be made, or the verdict of the run. */
    method Prepare(name: string, token: string, fate: Fate) returns (stopped: Option<Verdict>)
      requires Valid()
      modifies this`head, this`branches, this`index, this`work, this`originMain
      ensures Valid()
      ensures stopped.Some? ==> !stopped.value.Url?
      ensures fate.fetch.exit != Success ==> stopped == Some(if fate.fetch.exit == Raise then Raised else NoUrl)
      ensures old(branches.Keys) <= branches.Keys
      ensures Moved(old(head), old(branches), old(Now()), name, token)
      ensures index.rest == HeadCommit().tree.rest ||
              (index.rest == old(index.rest) && HeadCommit().tree.rest == old(HeadCommit()).tree.rest)
      ensures stopped == None ==>
                && Clean() && head == OnBranch(BranchOf(name))
                && CommittedOn(branches[BranchOf(name)], originMain, old(Now()), name, token)
      ensures old(Clean()) && fate.Prepares() && Proposable(fate.fetched.tree.header, name) ==> stopped == None
      ensures originMain == if fate.fetch.Took() then fate.fetched else old(originMain)
    {
      hide CommittedOn, Applied, Start.KeepsHeader, Start.Under, Start.Beside;
      ghost var start := Now();
      var branch := BranchOf(name);
      if fate.fetch.Took() { originMain := fate.fetched; }
      if fate.fetch.exit != Success { return Some(Ended(fate.fetch.exit)); }
      assert Clean() ==> start.Under(originMain) == originMain.tree.header && !Refuses(originMain) by {
        CleanKeeps(start, originMain);
      }
      UnderIs(start, originMain);
      var exit := SwitchCreate(branch, fate.switchTo);
      if exit != Success { return Some(Ended(exit)); }
      var changed := EditHeader(name, token, fate.edit);
      if changed == None { return Some(Raised); }
      if !changed.value { return Some(NoUrl); }
      if fate.add.Took() { index := index.(header := work); }
      if fate.add.exit != Success { return Some(Ended(fate.add.exit)); }
      CommitIndex(fate.commit);
      if fate.commit.Took() { Commits(branches[branch], originMain, start, name, token); }
      assert fate.commit.Took() ==> branches == old(branches)[branch := branches[branch]];
      if fate.commit.exit != Success { return Some(Ended(fate.commit.exit)); }
      return None;
    }

    /** Push, with one retry, and the draft. */
    method Publish(name: string, token: string, fate: Fate, isPrUrl: string -> bool) returns (verdict: Verdict)
      requires BranchOf(name) in branches
      modifies this`remote, this`drafts
      ensures Published(old(remote), old(drafts), name)
      ensures verdict.Url? ==> BranchOf(name) in remote && remote[BranchOf(name)] == branches[BranchOf(name)]
      ensures fate.Publishes() ==>
                && remote == old(remote)[BranchOf(name) := branches[BranchOf(name)]]
                && drafts == old(drafts) + {BranchOf(name)}
                && verdict == if Answered(fate.created, isPrUrl) then Url(fate.created) else NoUrl
    {
      var branch := BranchOf(name);
      if fate.push.Took() { remote := remote[branch := branches[branch]]; }
      var exit := fate.push.exit;
      if exit == Failure {
        if fate.pushAgain.Took() { remote := remote[branch := branches[branch]]; }
        exit := fate.pushAgain.exit;
      }
      if exit != Success { return Ended(exit); }
      if fate.create.Took() { drafts := drafts + {branch}; }
      match fate.create.exit {
        case Raise => return Raised;
        case Failure =>
          if !fate.already { return NoUrl; }
          if fate.view == Raise { return Raised; }
          return if fate.view == Success && fate.viewed != "" then Url(fate.viewed) else NoUrl;
        case Success =>
          return if Answered(fate.created, isPrUrl) then Url(fate.created) else NoUrl;
      }
    }

    /** Everything under `try`: the verdict, and whether the alias still has to be thrown away. */
    method Attempt(name: string, token: string, fate: Fate, isPrUrl: string -> bool)
      returns (verdict: Verdict, uncommitted: bool)
      requires Valid()
      modifies this
      ensures Valid()
      ensures old(branches.Keys) <= branches.Keys
      ensures Moved(old(head), old(branches), old(Now()), name, token)
      ensures index.rest == HeadCommit().tree.rest ||
              (index.rest == old(index.rest) && HeadCommit().tree.rest == old(HeadCommit()).tree.rest)
      ensures Published(old(remote), old(drafts), name)
      ensures uncommitted ==> remote == old(remote) && drafts == old(drafts) && !verdict.Url?
      ensures fate.fetch.exit != Success ==> uncommitted && verdict == if fate.fetch.exit == Raise then Raised else NoUrl
      ensures !uncommitted ==>
                && Clean() && BranchOf(name) in branches
                && CommittedOn(branches[BranchOf(name)], originMain, old(Now()), name, token)
                && (IsProposal(branches[BranchOf(name)], originMain, name, token) <==>
                    old(Now()).Under(originMain) == originMain.tree.header && old(Now()).Beside(originMain) == originMain.tree.rest)
      ensures verdict.Url? ==> BranchOf(name) in remote && remote[BranchOf(name)] == branches[BranchOf(name)]
      ensures old(Clean()) && fate.Prepares() && Proposable(fate.fetched.tree.header, name) ==>
                !uncommitted && originMain == fate.fetched
      ensures !uncommitted && fate.Publishes() ==>
                && remote == old(remote)[BranchOf(name) := branches[BranchOf(name)]]
                && drafts == old(drafts) + {BranchOf(name)}
                && verdict == if Answered(fate.created, isPrUrl) then Url(fate.created) else NoUrl
    {
      hide CommittedOn, IsProposal, Proposable, Applied, Start.Under, Start.Beside;
      ghost var start := Now();
      var stopped := Prepare(name, token, fate);
      if stopped.Some? { return stopped.value, true; }
      ProposalIff(branches[BranchOf(name)], originMain, start, name, token);
      verdict := Publish(name, token, fate, isPrUrl);
      uncommitted := false;
    }

    /** The clean-up: an alias that is not committed goes, then back to the remembered place. */
    method GiveBack(restore: bool, dest: Option<Head>)
      requires Valid() && (restore || !HeaderDirty())
      requires dest.Some? && dest.value.OnBranch? ==> dest.value.name in branches
      requires dest.Some? ==> index.rest == HeadCommit().tree.rest || Target(dest.value).tree.rest == HeadCommit().tree.rest
      modifies this`head, this`index, this`work
      ensures Valid()
      ensures head == if dest.Some? then dest.value else old(head)
      ensures work == index.header == HeadCommit().tree.header
      ensures index.rest == if old(index.rest) == old(HeadCommit()).tree.rest then HeadCommit().tree.rest else old(index.rest)
    {
      if restore { Restore(); }
      if dest.Some? { Switch(dest.value); }
    }

    /** The whole run, from any start. The clean-up commands are taken to succeed when git does not
        refuse them. */
    method OpenDraftPr(name: string, token: string, fate: Fate, isPrUrl: string -> bool)
      returns (verdict: Verdict, ghost committed: bool)
      requires Valid()
      modifies this
      ensures Valid()
      ensures fate.symbolicRef == Raise || fate.revParse == Raise ==> unchanged(this) && verdict == Raised && !committed
      // Every started run ends on the branch it began on, if git names it; otherwise at the commit it began
      // at, if git knows that; otherwise where the commands left it.
      ensures fate.revParse != Raise && fate.symbolicRef == Success && old(head).OnBranch? && old(head).name != "" ==>
                head == old(head)
      ensures fate.symbolicRef != Raise && fate.revParse != Raise &&
              !(fate.symbolicRef == Success && old(head).OnBranch? && old(head).name != "") ==>
                if fate.revParse == Success then head == Detached(old(HeadCommit()))
                else head == old(head) || head == OnBranch(BranchOf(name))
      // Wherever that is, index and worktree hold the header of the commit there.
      ensures fate.symbolicRef != Raise && fate.revParse != Raise ==>
                && work == index.header == HeadCommit().tree.header
                && (index.rest == old(index.rest) || index.rest == HeadCommit().tree.rest)
      // A run that goes back from off the tool's own branch is at its first commit again, and local changes
      // to the header survive exactly when they were no changes to it.
      ensures fate.symbolicRef != Raise && fate.revParse != Raise && old(head) != OnBranch(BranchOf(name)) &&
              (fate.revParse == Success || (fate.symbolicRef == Success && old(head).OnBranch? && old(head).name != "")) ==>
                && HeadCommit() == old(HeadCommit())
                && (work == old(work) && index.header == old(index.header) <==> !old(HeaderDirty()))
      ensures old(Clean()) ==> Clean()
      // Nothing but the tool's branch moves, here or on the remote.
      ensures BranchesKept(old(branches), old(Now()), name, token)
      ensures Published(old(remote), old(drafts), name)
      ensures !committed ==> remote == old(remote) && drafts == old(drafts) && !verdict.Url?
      ensures fate.symbolicRef != Raise && fate.revParse != Raise && fate.fetch.exit != Success ==>
                !committed && verdict == if fate.fetch.exit == Raise then Raised else NoUrl
      // What is committed stays on the branch and is all that is pushed. It is the base with exactly
      // the proposed line if and only if what the switch kept is as in the base.
      ensures committed ==>
                && BranchOf(name) in branches
                && CommittedOn(branches[BranchOf(name)], originMain, old(Now()), name, token)
                && (IsProposal(branches[BranchOf(name)], originMain, name, token) <==>
                    old(Now()).Under(originMain) == originMain.tree.header && old(Now()).Beside(originMain) == originMain.tree.rest)
      ensures verdict.Url? ==>
                committed && BranchOf(name) in remote && remote[BranchOf(name)] == branches[BranchOf(name)]
      // When the commands up to the commit succeed the proposal is made, whatever happens later;
      // when the others do too, it is pushed and drafted.
      ensures old(Clean()) && fate.symbolicRef != Raise && fate.revParse != Raise &&
              fate.Prepares() && Proposable(fate.fetched.tree.header, name) ==>
                committed && originMain == fate.fetched && IsProposal(branches[BranchOf(name)], originMain, name, token)
      ensures old(Clean()) && fate.symbolicRef != Raise && fate.revParse != Raise &&
              fate.Prepares() && fate.Publishes() && Proposable(fate.fetched.tree.header, name) ==>
                && remote == old(remote)[BranchOf(name) := branches[BranchOf(name)]]
                && drafts == old(drafts) + {BranchOf(name)}
                && verdict == if fate.created != "" && isPrUrl(fate.created) then Url(fate.created) else NoUrl
    {
      hide CommittedOn, IsProposal, Proposable, Applied;
      committed := false;
      if !fate.Started() { return Raised, committed; }
      var orig := Remembered(head, fate);
      var origCommit := HeadCommit();
      var restore: bool;
      verdict, restore := Attempt(name, token, fate, isPrUrl);
      committed := !restore;
      GiveBack(restore, if orig.Some? then Some(orig.value.At(origCommit)) else None);
    }

    /** Where the commands before the push can leave head and branches: untouched, on the tool's branch
        at the base, or there with the commit made. */
    ghost predicate Moved(head0: Head, branches0: map<string, Commit>, start: Start, name: string, token: string)
      reads this
    {
      var bot := BranchOf(name);
      || (head == head0 && branches == branches0)
      || (head == OnBranch(bot) && bot in branches &&
          branches == branches0[bot := branches[bot]] &&
          (branches[bot] == originMain || CommittedOn(branches[bot], originMain, start, name, token)))
    }

    /** Only the tool's own branch may be new or moved, to the base or to the commit on it. */
    ghost predicate BranchesKept(branches0: map<string, Commit>, start: Start, name: string, token: string)
      reads this
    {
      var bot := BranchOf(name);
      || branches == branches0
      || (bot in branches && branches == branches0[bot := branches[bot]] &&
          (branches[bot] == originMain || CommittedOn(branches[bot], originMain, start, name, token)))
    }

    /** Only the tool's branch may be pushed, as it stands here; a new draft is for that branch once pushed. */
    ghost predicate Published(remote0: map<string, Commit>, drafts0: set<string>, name: string)
      reads this
    {
      var bot := BranchOf(name);
      && (remote == remote0 || (bot in branches && remote == remote0[bot := branches[bot]]))
      && (drafts == drafts0 ||
          (drafts == drafts0 + {bot} && bot in branches && bot in remote && remote[bot] == branches[bot]))
    }
  }

  lemma Commits(c: Commit, base: Commit, start: Start, name: string, token: string)
    requires c.Commit? && c.parent == base && c.tree.rest == start.Beside(base)
    requires Applied(start.Under(base), name, token) == Ok(c.tree.header) && c.tree.header != start.Under(base)
    ensures CommittedOn(c, base, start, name, token)
  {
  }

  lemma UnderIs(start: Start, base: Commit)
    ensures start.Under(base) ==
            if base.tree.header == start.from.tree.header || base.tree.header == start.staged.header then start.work else base.tree.header
    ensures start.Beside(base) == if base.tree.rest == start.from.tree.rest then start.staged.rest else base.tree.rest
  {
  }

  /** A clean start keeps nothing of its own. */
  lemma CleanKeeps(start: Start, base: Commit)
    ensures start.staged == start.from.tree && start.work == start.staged.header ==>
              start.Under(base) == base.tree.header && start.Beside(base) == base.tree.rest
  {
  }

  /** Two headers that the line was added to are equal when the results are: the line, which neither
      held, stands at one place. */
  lemma AddedLineUnique(a: seq<string>, b: seq<string>, name: string, token: string)
    requires Applied(a, name, token).Ok? && Applied(a, name, token) == Applied(b, name, token)
    requires Applied(a, name, token).value != a && Applied(b, name, token).value != b
    ensures a == b
  {
    hide Contains, IsReturn, AliasLine;
    var line := AliasLine(name, token);
    var i, j := LastReturn(a), LastReturn(b);
    var r := a[..i] + [line] + a[i..];
    assert r == b[..j] + [line] + b[j..];
    LineIsQuoted(name, token);
    assert r[i] == line && r[j] == line;
    assert forall k | 0 <= k < |a| :: a[k] != line;
    assert forall k | 0 <= k < |b| :: b[k] != line;
    assert forall k | 0 <= k < |r| && k != i :: r[k] != line;
    assert i == j;
    assert a == r[..i] + r[i + 1..] && b == r[..j] + r[j + 1..];
  }

  /** What is committed is the proposal exactly when the header it was added to and everything beside
      it are the base's, which is so from every clean start. */
  lemma ProposalIff(c: Commit, base: Commit, start: Start, name: string, token: string)
    requires CommittedOn(c, base, start, name, token)
    ensures IsProposal(c, base, name, token) <==> start.Under(base) == base.tree.header && start.Beside(base) == base.tree.rest
    ensures start.staged == start.from.tree && start.work == start.staged.header ==> IsProposal(c, base, name, token)
  {
    hide Applied, Start.Under, Start.Beside;
    if IsProposal(c, base, name, token) {
      AddedLineUnique(start.Under(base), base.tree.header, name, token);
    }
    CleanKeeps(start, base);
  }

  /** What merging a proposal changes: one line of the header, and the answers that line gives to names
      without one, unless an earlier return hides it; of names without a quote, that is the name alone. */
  lemma ProposalEffect(c: Commit, base: Commit, name: string, token: string, other: string)
    requires IsProposal(c, base, name, token) && IsToken(token)
    ensures var k := LastReturn(base.tree.header); var line := AliasLine(name, token);
            && c.tree.header == base.tree.header[..k] + [line] + base.tree.header[k..]
            && Lookup(c.tree.header, other) ==
               Prefer(Lookup(base.tree.header, other),
                      if HasReturn(base.tree.header[..k]) then None else DefIn(line, SelfCheck, other))
            && Lookup(base.tree.header, name) == None
            && (DefIn(line, SelfCheck, name) == if Nameable(name) then Some(token) else None)
            && (Nameable(name) && other != name ==> DefIn(line, SelfCheck, other) == None)
  {
    hide Lookup, HasReturn, HeaderHas, AliasLine;
    AliasEffect(base.tree.header, name, token, other);
  }

  /** Where the clean-up will go back to: the branch if it was on one and git said so, otherwise the
      commit, otherwise nowhere. */
  datatype Place = Branch(name: string) | Here {
    function At(c: Commit): Head { match this case Branch(b) => OnBranch(b) case Here => Detached(c) }
  }

  function Remembered(head: Head, fate: Fate): Option<Place> {
    if head.OnBranch? && fate.symbolicRef == Success && head.name != "" then Some(Branch(head.name))
    else if fate.revParse == Success then Some(Here)
    else None
  }

  /** Every name has a branch of its own. */
  lemma BranchesApart(a: string, b: string)
    ensures "census/auto-map-" <= BranchOf(a)
    ensures BranchOf(a) == BranchOf(b) ==> a == b
  {
    var n := |"census/auto-map-"|;
    assert BranchOf(a)[n..] == a && BranchOf(b)[n..] == b;
  }

  /** How the function ends on a command that did not succeed. */
  function Ended(exit: Exit): Verdict { if exit == Raise then Raised else NoUrl }
}
