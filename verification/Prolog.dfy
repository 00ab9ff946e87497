// What the trampoline builders of every architecture ask about addresses.
module Prolog {
  import opened Machine

  // The instruction at pc comes before a destination that an earlier internal
  // transfer leads to.
  predicate InBranch(branch: Option<u64>, pc: int) {
    branch.Some? && pc < branch.value
  }

  predicate InProlog(target: u64, margin: nat, dest: u64) {
    target <= dest < target + margin
  }

  // track_branch: the farthest destination is kept.
  function Track(branch: Option<u64>, dest: u64): Option<u64> {
    match branch
    case None => Some(dest)
    case Some(e) => if dest > e then Some(dest) else branch
  }

  // The prolog starts at `target`, its words are `ws`, and the addresses the
  // builder reads do not wrap.
  ghost predicate ReadableWords(ws: seq<word>, target: u64, margin: nat) {
    && |ws| > 0 && 4 * |ws| >= margin
    && target + 4 * |ws| + margin < TWO64
  }
}
