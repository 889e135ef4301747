/** The client's three files for a PFX archive, written one after another by runs that may be
    interrupted, while the server renews the certificate and may replace the password. */
module PfxFiles {
  import opened Text

  /** An archive as downloaded: the version of the leaf inside, the password, the salt. */
  datatype Archive = Archive(version: nat, password: string, salt: nat)

  /** The password file, the archive, and the sidecar with the leaf the archive was built for. */
  datatype Files = Files(pw: Option<string>, pfx: Option<Archive>, side: Option<nat>)

  datatype Report = Unchanged | Changed | Interrupted

  predicate Current(f: Files, leaf: nat) {
    f.side == Some(leaf) && f.pfx.Some? && f.pw.Some?
  }

  /** The files after a run that gets as far as `writes` of its three writes. */
  function AfterRun(f: Files, leaf: nat, archive: Archive, writes: nat): Files {
    if Current(f, leaf) || writes == 0 then f
    else if writes == 1 then f.(pw := Some(archive.password))
    else if writes == 2 then f.(pw := Some(archive.password), pfx := Some(archive))
    else Files(Some(archive.password), Some(archive), Some(leaf))
  }

  class Target {
    var pw: Option<string>
    var pfx: Option<Archive>
    var side: Option<nat>

    function Contents(): Files
      reads this
    {
      Files(pw, pfx, side)
    }

    /** `write_if_changed`, for the password file. */
    method WritePassword(password: string) returns (written: bool)
      modifies this`pw
      ensures pw == Some(password)
      ensures written <==> old(pw) != Some(password)
    {
      if pw == Some(password) {
        return false;
      }
      pw := Some(password);
      written := true;
    }

    /** `write_pfx_if_changed`, given what the two downloads return and how far it gets. */
    method WritePfxIfChanged(leaf: nat, archive: Archive, writes: nat) returns (report: Report)
      modifies this
      ensures Contents() == old(AfterRun(Contents(), leaf, archive, writes))
      ensures report.Unchanged? <==> old(Current(Contents(), leaf))
      ensures report.Changed? <==> !old(Current(Contents(), leaf)) && writes >= 3
      ensures report.Changed? ==> Current(Contents(), leaf) && pw == Some(archive.password) && pfx == Some(archive)
    {
      var current := side == Some(leaf) && pfx.Some? && pw.Some?;
      if current {
        return Unchanged;
      }
      if writes == 0 {
        return Interrupted;
      }
      var written := WritePassword(archive.password);
      if writes == 1 {
        return Interrupted;
      }
      pfx := Some(archive);
      if writes == 2 {
        return Interrupted;
      }
      side := Some(leaf);
      report := Changed;
    }
  }

  // ── Any sequence of runs, renewals, new passwords and lost files ───────────

  datatype World = World(version: nat, password: string, files: Files)

  /** A run may see the server move on between its two downloads. */
  datatype Step =
    | Renew
    | Replace(password: string)
    | LosePassword
    | LoseArchive
    | LoseSidecar
    | Run(renewals: nat, newPassword: Option<string>, salt: nat, writes: nat)

  function ServerPassword(w: World, step: Step): string {
    if step.Replace? then step.password
    else if step.Run? && step.newPassword.Some? then step.newPassword.value
    else w.password
  }

  function Apply(w: World, step: Step): World {
    var password := ServerPassword(w, step);
    match step
    case Renew => w.(version := w.version + 1)
    case Replace(p) => w.(password := password)
    case LosePassword => w.(files := w.files.(pw := None))
    case LoseArchive => w.(files := w.files.(pfx := None))
    case LoseSidecar => w.(files := w.files.(side := None))
    case Run(renewals, newPassword, salt, writes) =>
      var archive := Archive(w.version + renewals, password, salt);
      World(archive.version, password, AfterRun(w.files, w.version, archive, writes))
  }

  function Final(w: World, steps: seq<Step>): World
    decreases |steps|
  {
    if steps == [] then w else Final(Apply(w, steps[0]), steps[1..])
  }

  function Start(version: nat, password: string): World {
    World(version, password, Files(None, None, None))
  }

  /** The sidecar never runs ahead of the archive, nor either of the server. */
  predicate Ordered(w: World) {
    && (w.files.side.Some? ==> w.files.side.value <= w.version)
    && (w.files.pfx.Some? ==> w.files.pfx.value.version <= w.version)
    && (w.files.side.Some? && w.files.pfx.Some? ==> w.files.side.value <= w.files.pfx.value.version)
  }

  lemma {:induction false} RunsStayOrdered(w: World, steps: seq<Step>)
    requires Ordered(w)
    ensures Ordered(Final(w, steps))
    decreases |steps|
  {
    if steps != [] {
      RunsStayOrdered(Apply(w, steps[0]), steps[1..]);
    }
  }

  /** The password file fits the archive, except while the sidecar is out of date. */
  predicate Fits(w: World) {
    && Ordered(w)
    && (w.files.pw.Some? && w.files.pfx.Some? && w.files.side.Some? ==>
          w.files.pw.value == w.files.pfx.value.password || w.files.side.value < w.version)
    && (w.files.pw.None? ==> w.files.pfx.None? && w.files.side.None?)
  }

  lemma {:induction false} RunsFitUnlessLost(w: World, steps: seq<Step>)
    requires Fits(w) && forall k :: 0 <= k < |steps| ==> !steps[k].LosePassword?
    ensures Fits(Final(w, steps))
    decreases |steps|
  {
    if steps != [] {
      assert !steps[0].LosePassword?;
      RunsFitUnlessLost(Apply(w, steps[0]), steps[1..]);
    }
  }

  /** Everything on disk carries the one password there is. */
  predicate OnePassword(w: World, password: string) {
    && w.password == password
    && (w.files.pw.Some? ==> w.files.pw.value == password)
    && (w.files.pfx.Some? ==> w.files.pfx.value.password == password)
  }

  predicate Keeps(step: Step) {
    !step.Replace? && (step.Run? ==> step.newPassword.None?)
  }

  lemma {:induction false} RunsFitUnlessReplaced(w: World, steps: seq<Step>, password: string)
    requires OnePassword(w, password) && forall k :: 0 <= k < |steps| ==> Keeps(steps[k])
    ensures OnePassword(Final(w, steps), password)
    decreases |steps|
  {
    if steps != [] {
      assert Keeps(steps[0]);
      RunsFitUnlessReplaced(Apply(w, steps[0]), steps[1..], password);
    }
  }

  /** After any history, a run that reports no change leaves an archive built from the very leaf it
      has just downloaded; and its password file opens that archive, if the server never replaced
      the password or the password file was never lost. */
  lemma UnchangedIsRight(version: nat, password: string, steps: seq<Step>)
    ensures var w := Final(Start(version, password), steps);
            Current(w.files, w.version) ==>
              && w.files.pfx.value.version == w.version
              && ((forall k :: 0 <= k < |steps| ==> !steps[k].LosePassword?)
                   || (forall k :: 0 <= k < |steps| ==> Keeps(steps[k])) ==>
                    w.files.pw.value == w.files.pfx.value.password)
  {
    var w := Start(version, password);
    RunsStayOrdered(w, steps);
    if forall k :: 0 <= k < |steps| ==> !steps[k].LosePassword? {
      RunsFitUnlessLost(w, steps);
    }
    if forall k :: 0 <= k < |steps| ==> Keeps(steps[k]) {
      RunsFitUnlessReplaced(w, steps, password);
    }
  }

  /** The one interrupted run that leaves a mismatch no later run sees: it stops after its first
      write, and started with everything in place but a password file, under a new password. */
  lemma UnseenMismatch(f: Files, leaf: nat, archive: Archive, writes: nat)
    requires !Current(f, leaf)
    ensures var g := AfterRun(f, leaf, archive, writes);
            Current(g, leaf) && g.pw.value != g.pfx.value.password
            <==> (writes == 1 && f.side == Some(leaf) && f.pfx.Some? && f.pw.None?
                  && f.pfx.value.password != archive.password)
  {}

  /** A world in which the next run reports no change although the password does not fit. */
  predicate Mismatched(w: World) {
    Current(w.files, w.version) && w.files.pw.value != w.files.pfx.value.password
  }

  lemma MismatchRun(version: nat, password: string, other: string)
    requires password != other
    ensures Mismatched(Final(Start(version, password),
              [Run(0, None, 0, 3), LosePassword, Replace(other), Run(0, None, 1, 1)]))
  {
    var steps := [Run(0, None, 0, 3), LosePassword, Replace(other), Run(0, None, 1, 1)];
    var w1 := Apply(Start(version, password), steps[0]);
    var w2 := Apply(w1, LosePassword);
    var w3 := Apply(w2, Replace(other));
    var w4 := Apply(w3, Run(0, None, 1, 1));
    assert steps[1..] == [LosePassword, Replace(other), Run(0, None, 1, 1)];
    assert steps[1..][1..] == [Replace(other), Run(0, None, 1, 1)];
    assert steps[1..][1..][1..] == [Run(0, None, 1, 1)];
    assert steps[1..][1..][1..][1..] == [];
    assert Final(w3, [Run(0, None, 1, 1)]) == Final(w4, []) == w4;
    assert Final(w2, [Replace(other), Run(0, None, 1, 1)]) == Final(w3, [Run(0, None, 1, 1)]);
    assert Final(w1, steps[1..]) == Final(w2, steps[1..][1..]);
  }

  /** Both causes are needed, and together they are enough: some history without a lost password
      file, or without a replaced password, as the case may be, reaches a mismatch that no later run
      would see exactly when both are allowed. */
  lemma BothCausesNeeded(version: nat, password: string, mayLose: bool, mayReplace: bool)
    ensures (exists steps :: Allowed(steps, mayLose, mayReplace) && Mismatched(Final(Start(version, password), steps)))
            <==> mayLose && mayReplace
  {
    if mayLose && mayReplace {
      var other := password + "x";
      var steps := [Run(0, None, 0, 3), LosePassword, Replace(other), Run(0, None, 1, 1)];
      assert |other| != |password|;
      MismatchRun(version, password, other);
      assert Allowed(steps, true, true);
    } else {
      forall steps | Allowed(steps, mayLose, mayReplace) ensures !Mismatched(Final(Start(version, password), steps)) {
        UnchangedIsRight(version, password, steps);
      }
    }
  }

  predicate Allowed(steps: seq<Step>, mayLose: bool, mayReplace: bool) {
    forall k :: 0 <= k < |steps| ==> (steps[k].LosePassword? ==> mayLose) && (!Keeps(steps[k]) ==> mayReplace)
  }

  /** An interrupted run is made good by the next one that is not: whatever the files, a full run
      leaves the archive the server built, with the password that opens it, beside the leaf
      downloaded first. All three agree exactly when the server was not renewed in between, and if it
      was, the next run sees it. */
  lemma FullRunRepairs(w: World, renewals: nat, newPassword: Option<string>, salt: nat, writes: nat)
    requires writes >= 3 && !Current(w.files, w.version)
    ensures var t := Apply(w, Run(renewals, newPassword, salt, writes));
            && t.version == w.version + renewals
            && t.password == (if newPassword.Some? then newPassword.value else w.password)
            && t.files == Files(Some(t.password), Some(Archive(t.version, t.password, salt)), Some(w.version))
            && (Current(t.files, t.version) <==> renewals == 0)
  {}

  /** What may happen between two runs: the server renews any number of times and replaces the
      password, and any of the files get lost. */
  function Between(renewals: nat, password: string, losePw: bool, losePfx: bool, loseSide: bool): seq<Step> {
    (if losePw then [LosePassword] else []) + (if losePfx then [LoseArchive] else [])
    + (if loseSide then [LoseSidecar] else []) + [Replace(password)] + seq(renewals, n => Renew)
  }

  function Lost(f: Files, losePw: bool, losePfx: bool, loseSide: bool): Files {
    Files(if losePw then None else f.pw, if losePfx then None else f.pfx, if loseSide then None else f.side)
  }

  lemma AnythingBetween(w: World, renewals: nat, password: string, losePw: bool, losePfx: bool, loseSide: bool)
    ensures Final(w, Between(renewals, password, losePw, losePfx, loseSide)) ==
            World(w.version + renewals, password, Lost(w.files, losePw, losePfx, loseSide))
  {
    hide Final, Apply;
    var lost1 := if losePw then [LosePassword] else [];
    var lost2 := if losePfx then [LoseArchive] else [];
    var lost3 := if loseSide then [LoseSidecar] else [];
    var renewed := seq(renewals, n => Renew);
    var v := w.(files := Lost(w.files, losePw, losePfx, loseSide));
    FinalAppend(w, lost1, lost2);
    FinalAppend(w, lost1 + lost2, lost3);
    FinalAppend(w, lost1 + lost2 + lost3, [Replace(password)]);
    FinalAppend(w, lost1 + lost2 + lost3 + [Replace(password)], renewed);
    Losses(w, losePw, losePfx, loseSide);
    FinalOne(v, Replace(password));
    Replaced(v, password);
    Renewed(v.(password := password), renewals);
  }

  lemma Losses(w: World, losePw: bool, losePfx: bool, loseSide: bool)
    ensures var lost1: seq<Step> := if losePw then [LosePassword] else [];
            var lost2: seq<Step> := if losePfx then [LoseArchive] else [];
            var lost3: seq<Step> := if loseSide then [LoseSidecar] else [];
            Final(Final(Final(w, lost1), lost2), lost3) ==
            w.(files := Lost(w.files, losePw, losePfx, loseSide))
  {
    hide Final;
    FinalNone(w);
    var w1 := if losePw then Apply(w, LosePassword) else w;
    var w2 := if losePfx then Apply(w1, LoseArchive) else w1;
    FinalNone(w1);
    FinalNone(w2);
    FinalOne(w, LosePassword);
    FinalOne(w1, LoseArchive);
    FinalOne(w2, LoseSidecar);
  }

  lemma Replaced(w: World, password: string)
    ensures Apply(w, Replace(password)) == w.(password := password)
  {}

  lemma {:induction false} Renewed(w: World, renewals: nat)
    ensures Final(w, seq(renewals, n => Renew)) == w.(version := w.version + renewals)
    decreases renewals
  {
    var steps := seq(renewals, n => Renew);
    if renewals > 0 {
      assert steps[1..] == seq(renewals - 1, n => Renew);
      Renewed(Apply(w, Renew), renewals - 1);
    }
  }

  lemma FinalNone(w: World)
    ensures Final(w, []) == w
  {}

  lemma FinalOne(w: World, step: Step)
    ensures Final(w, [step]) == Apply(w, step)
  {
    hide Apply;
    assert [step][1..] == [];
  }

  lemma {:induction false} FinalAppend(w: World, a: seq<Step>, b: seq<Step>)
    ensures Final(w, a + b) == Final(Final(w, a), b)
    decreases |a|
  {
    hide Apply;
    if a == [] {
      assert a + b == b;
    } else {
      assert (a + b)[1..] == a[1..] + b;
      FinalAppend(Apply(w, a[0]), a[1..], b);
    }
  }
}
