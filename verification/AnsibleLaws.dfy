/**
 Which modifications share a task, said of the modifications themselves.
 */
module AnsibleLaws {
  import opened Ansible

  /**
   A task is for modifications of one operation, with deletes of whole attributes apart from
   deletes of values; and the task before it is for another operation, or for the other deletes.
   */
  lemma RunsAre(mods: seq<Mod>, i: nat)
    requires i < |Group(mods)|
    ensures OneKind(Group(mods)[i])
    ensures i > 0 ==> OneKind(Group(mods)[i - 1]) && OtherKind(Group(mods)[i - 1], Group(mods)[i])
  {
    GroupIsGrouping(mods);
    CutRuns(Group(mods), i);
    if i > 0 {
      CutRuns(Group(mods), i - 1);
    }
  }

  ghost predicate OneKind(r: Run)
  {
    r.mods != [] && forall k: nat :: k < |r.mods| ==>
      r.mods[k].op == r.op && (r.whole <==> r.op == Delete && r.mods[k].values == [])
  }

  predicate OtherKind(a: Run, b: Run)
  {
    a.op != b.op || (b.op == Delete && a.whole != b.whole)
  }
}
