/** What a sequence of append-and-commit rounds leaves in the log, whichever opens of the file fail. */
module CommitLog {
  import opened Lines

  /** One round: a batch, and whether the log opened for its append and for the truncation after it. */
  datatype Round = Round(batch: seq<string>, appends: bool, truncates: bool)

  function AfterRound(wal: string, r: Round): string {
    if r.truncates then "" else if r.appends then wal + Serialize(r.batch) else wal
  }

  function AfterRounds(wal: string, rounds: seq<Round>): string {
    if rounds == [] then wal else AfterRound(AfterRounds(wal, rounds[..|rounds| - 1]), rounds[|rounds| - 1])
  }

  /** Whether round `k` is still in the log: its append opened, and no truncation since did. */
  predicate Kept(rounds: seq<Round>, k: nat)
    requires k < |rounds|
  {
    rounds[k].appends && forall m | k <= m < |rounds| :: !rounds[m].truncates
  }

  /** The lines of the kept rounds among the first `n`, in order. */
  function KeptLines(rounds: seq<Round>, n: nat): seq<string>
    requires n <= |rounds|
  {
    if n == 0 then [] else KeptLines(rounds, n - 1) + if Kept(rounds, n - 1) then rounds[n - 1].batch else []
  }

  /** A truncation drops every earlier round. */
  lemma {:induction false} TruncationDrops(rounds: seq<Round>, n: nat)
    requires n <= |rounds| && rounds != [] && rounds[|rounds| - 1].truncates
    ensures KeptLines(rounds, n) == []
  {
    if n > 0 { TruncationDrops(rounds, n - 1); }
  }

  /** Another round that does not truncate keeps what was kept. */
  lemma {:induction false} KeptBefore(rounds: seq<Round>, n: nat)
    requires n < |rounds| && !rounds[|rounds| - 1].truncates
    ensures KeptLines(rounds, n) == KeptLines(rounds[..|rounds| - 1], n)
  {
    if n > 0 {
      KeptBefore(rounds, n - 1);
      var init := rounds[..|rounds| - 1];
      assert forall m | 0 <= m < |init| :: init[m] == rounds[m];
      assert Kept(rounds, n - 1) <==> Kept(init, n - 1);
    }
  }

  /** From an empty log, what is left is exactly the text of the kept rounds. */
  lemma {:induction false} LogHoldsKept(rounds: seq<Round>)
    ensures AfterRounds("", rounds) == Serialize(KeptLines(rounds, |rounds|))
  {
    if rounds != [] {
      var n := |rounds| - 1;
      var init, last := rounds[..n], rounds[n];
      LogHoldsKept(init);
      if last.truncates {
        TruncationDrops(rounds, |rounds|);
      } else {
        KeptBefore(rounds, n);
        if last.appends {
          SerializeConcat(KeptLines(init, n), last.batch);
        } else {
          assert KeptLines(rounds, |rounds|) == KeptLines(init, n);
        }
      }
    }
  }
}
