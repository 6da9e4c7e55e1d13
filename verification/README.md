# raftpp, verified

A Dafny model of the consensus core of raftpp, a C++ port of raft-rs, and of the part of its
write-ahead log that has to survive a crash. `dafny verify dfyconfig.toml` checks all of it.

## What is modelled

- **The protocol** (`RaftNode`, `RaftHistory`, `RaftGrowth`, `RaftRecords`, `RaftSteps`,
  `RaftSafety`, `RaftRuns`, `RaftEffects`, `RaftProgress`). A node is a value; every message and local event is a step on it. A
  cluster is its nodes and all messages ever sent, which may be lost, repeated, delayed and
  reordered. The safety properties of Figure 3 of Ongaro and Ousterhout, "In Search of an
  Understandable Consensus Algorithm", are proved for every run: with pre-vote, check-quorum,
  leases, priorities, leader transfer, joint voter sets, group commit, commit fast-forward from
  vote messages, and a leader that counts its own entries only once they are persisted.
  `RaftHistory` holds the invariant: a ghost history of reigns, ballots, campaigns,
  acknowledgements and decisions. `RaftEffects` says what the steps do in terms of quorums and
  logs, and `RaftProgress` that no run is ever stuck.
- **The handlers in place** (`Raft`, `PlainLog`). The same steps as methods that update a node
  over the two-tier log, each proved to do what the node model says.
- **Backtracking** (`Backtrack`). The probe dialogue of a leader and a follower.
- **Quorums and membership** (`Quorum`, `ConfChange`, `ConfChanger`, `ConfRestore`). Commit index
  with and without groups, votes, joint configurations, the three membership operations over a
  lazy overlay of the progress map, printing and restoring.
- **The two-tier log** (`FlatLog`, `LogStore`, `RaftLog`) and its delivery (`RawNode`). Unstable
  entries over a storage refine one flat log: base index, base term, entries.
- **Flow control** (`Inflights`, `Progress`, `Replication`). The ring buffer, the per-peer state
  machine and the sending loop.
- **The write-ahead log** (`Record`, `WalReplay`, `WalIndex`, `WalEntries`, `Wal`,
  `WalRecovery`). Records, the buffered append path, the index, and opening the log again after
  a crash: what comes back, and when it does not.

Each method is proved against a function of its old state. The main results are lemmas about
those functions, or invariants (`Valid`, `Durable`, `Closed`, `Inv`) that every operation keeps.

## What is assumed

- Terms and indices are natural numbers; 32-bit record sizes wrap as in the source.
- Append messages are not batched.
- In the protocol the voter set is fixed, there are no snapshots, and a node does not restart.
- Timers, leases and the scan for unapplied configuration changes are free choices of the
  environment, and so are changes of priority and proposals, forwarded ones included. When a
  leader sends is free too: it may send any append, heartbeat or read-index answer its state
  allows, at any time, so every sending strategy is covered.
- The checksum is any function. Serialising and parsing an entry are inverse to each other.
- A segment is the bytes written to it, and file operations succeed.
- The application stores what a ready asks for before it advances, steps nothing in between, and
  compacts only what was delivered to it.
- A snapshot at index 0 has term 0.

## What the proofs turned up

- Of all the events of the protocol model, exactly two stop a process. A node that has never left
  term 0 is asked for a pre-vote by a node of lower priority with an empty log: its refusal would
  carry term 0. Or a leader is given a proposal without entries, its own or a forwarded one. Both
  occur (`RaftSafety.PanicsExactly`, `RaftRuns.TermZeroRefusalOccurs`,
  `RaftRuns.EmptyProposalOccurs`).
- The protocol's invariant had to admit two cases; no run is exhibited for them. A node that learns
  of a commit from the pre-vote request of a later term may acknowledge its commit index to an
  older leader whose log differs there. That leader may then send an empty append past the end of
  its own log, with previous term 0. Safety holds with both.
- A node that becomes leader while a ready with entries is not yet reported as persisted stops
  the process at its next ready, and only then. What keeps it from happening is left to the
  application: a node that does not lead sends its messages, vote requests among them, only after
  its ready is persisted (`RawNode.RawNode.GetReady`).
- Compacting the storage past its last entry sends the last index back to the snapshot's. A local
  snapshot past the last entry leaves the storage inconsistent
  (`LogStore.MemoryStorage.Compact`, `LogStore.MemoryStorage.ApplyLocalSnapshot`).
- A hard state that rolls to a new segment labels the segment with the log's first index, and
  the segment right before it can no longer be found. Its entries cannot be overwritten: the
  append is refused (`Wal.Wal.SaveHardState`, `Wal.OverwriteAfterHardState`). When the log is
  opened again they are not read back: recovery looks every segment up by its label. The entries
  are lost, and if one was committed the log cannot be opened (`WalRecovery.HardStateForgets`,
  `WalRecovery.FreshForgets`). Recovery is exact whenever the labels rise (`WalRecovery.Reopen`),
  and every segment is found for its own label if and only if they do
  (`WalIndex.FoundByOwnLabel`).

## Model

| member | source | states |
|---|---|---|
| `RaftSafety.ElectionSafety` | lib/core/raft.cc:280-385 | In every run at most one node is ever leader in a given term, with pre-vote, leader transfer, step-downs that keep the vote, and repeated or late answers |
| `RaftSafety.LogMatching` | lib/core/raft_log.cc:83-107 | In every run, two logs with the same term at an index are equal up to that index, although conflicts are found by comparing terms only |
| `RaftSafety.LeaderAppendOnly` | lib/core/raft.cc:203-218 | A leader's log only grows while it leads a term |
| `RaftSafety.LeaderCompleteness` | lib/core/raft.cc:220-229 | What a leader commits in its term is in the log of every leader of every later term |
| `RaftSafety.StateMachineSafety` | lib/core/raft.cc:220-229 | No two nodes ever differ at an index both have committed, by quorum, append, heartbeat, read-index answer or vote fast-forward |
| `RaftSafety.CommittedIsForever` | lib/core/raft_log.cc:209-222 | Terms and commit indices never fall along a run, and a committed prefix never changes |
| `RaftSafety.CursorsRise` | lib/core/raft.cc:1249-1384 | No event of any run lowers any node's term or commit index |
| `RaftSafety.NothingLowered` | lib/core/raft.cc:1249-1384 | No single event lowers the term or the commit index of the node that handles it |
| `RaftSafety.RunExplained` | lib/core/raft.cc:1249-1384 | Every run of every length satisfies the invariant at each step, with one history of elections, votes, acknowledgements and decisions that only grows |
| `RaftSafety.NextKeeps` | lib/core/raft.cc:1249-1384 | Any step of any node, with messages lost, repeated or reordered, keeps the cluster invariant |
| `RaftSafety.PanicsExactly` | lib/core/raft.cc:1087-1092 | Whatever event comes next, a process stops exactly if a node still in term 0 is asked for a pre-vote by a node of lower priority with an empty log, or a leader is given a proposal without entries; in particular a conflict with a committed entry never happens |
| `RaftSafety.StepPanics` | lib/core/raft.cc:1320-1366 | A message stops a node exactly if it is a pre-vote request with an empty log and a lower priority and the node is in term 0, whatever timers and leases do |
| `RaftRuns.TermZeroRefusalOccurs` | lib/core/raft.cc:1350-1366 | The first stopping case is reachable: a concrete run of two nodes ends in it |
| `RaftRuns.EmptyProposalOccurs` | lib/core/raft.cc:1087-1092 | So is the second: a concrete run ends with a leader that an empty proposal stops |
| `RaftRuns.CommitOccurs` | lib/core/raft.cc:250-266 | Runs do elect and commit: a concrete run of a single voter ends with its first entry committed |
| `RaftRuns.MessagesFit` | lib/core/raft_core.cc:121-147 | Every append message of a run has consecutive entries with real terms, and a real previous term where the receiver's log is shorter unless it is empty |
| `RaftRuns.LogsSorted` | lib/core/raft.cc:203-218 | Every log of a run has real terms that never fall |
| `RaftProgress.NeverStuck` | lib/core/raft.cc:1249-1384 | From every state of every run, whatever terms, logs, votes, roles and priorities the nodes have, there is a way on to a leader that has committed its whole log, with an entry of its own new term at the end: for every set of voters, joint or not, with or without pre-votes, leases and group commit |
| `RaftProgress.CatchUp` | lib/core/raft.cc:1249-1314 | A voter with the best log can always reach a term in which no vote is refused to it: by standing again, or by learning the later term from the refusal of a pre-vote |
| `RaftProgress.Elect` | lib/core/raft.cc:314-385 | From there it can be elected, pre-votes first if they are configured, by the votes of a quorum |
| `RaftProgress.CommitAll` | lib/core/raft.cc:528-605 | A new leader can send every voter the rest of its log, which every voter accepts, and then commit all of it, with or without group commit |
| `RaftProgress.LeaderHasCommitted` | lib/core/raft.cc:220-229 | A leader that no voter is ahead of has everything any voter has committed, at the same place |
| `RaftProgress.StartsUp` | lib/core/raft.cc:1249-1384 | Every cluster, of any voters, can elect its first leader and commit its first entry |
| `RaftProgress.ThreeVotersCommit` | lib/core/raft.cc:1249-1384 | With three voters, where no one is a quorum alone, a run elects a leader and commits |
| `RaftEffects.VoteGranted` | lib/core/raft.cc:1320-1347 | A vote or pre-vote request is granted, and with its own term, if it is not of an older term or shut out by a lease, the vote of its term is free or the sender's, its last term and index are at least the voter's, and it is longer or not outranked; a real vote is recorded |
| `RaftEffects.VoteRefused` | lib/core/raft.cc:1348-1366 | Otherwise no vote is given; the refusal carries the voter's term, and there is one exactly unless the request is shut out by a lease or old and not a pre-vote |
| `RaftEffects.RefusalFastForwards` | lib/core/raft.cc:482-518 | A refused request still commits what its sender has committed, exactly if the voter does not lead and has that very entry |
| `RaftEffects.TimeoutStands` | lib/core/raft.cc:387-420 | A voter that times out leads at once if it is a quorum alone; otherwise it asks every other voter, and no one else, for a pre-vote or, as a candidate of the next term with its own vote, for a vote |
| `RaftEffects.TimeoutIgnored` | lib/core/raft.cc:387-420 | A leader, a node that is no voter and one with a configuration change to apply do nothing |
| `RaftEffects.TransferStands` | lib/core/raft.cc:809-902 | A follower told to take over stands at once, without pre-votes, and with requests that break through leases |
| `RaftEffects.AnswerDecides` | lib/core/raft.cc:756-807 | A candidate leads as soon as a quorum has granted its vote, gives up as soon as no answers to come can make a quorum, and waits otherwise; a report in the answer commits exactly what the candidate has |
| `RaftEffects.PreAnswerDecides` | lib/core/raft.cc:756-807 | A pre-candidate stands as soon as a quorum is in favour |
| `RaftEffects.PreRefusalCounts` | lib/core/raft.cc:756-807 | It gives up as soon as no quorum can be in favour any more |
| `RaftEffects.StrayAnswersIgnored` | lib/core/raft.cc:756-902 | Answers that do not fit the role change nothing |
| `RaftEffects.AcknowledgementCommits` | lib/core/raft.cc:528-605 | A new acknowledgement commits the largest index that the voters then support, if it is new and of the leader's own term, and changes nothing else |
| `RaftEffects.PersistenceCommits` | lib/core/raft.cc:250-266 | The same for the leader's own entries, once they are persisted |
| `RaftEffects.ReachedIsQuorum` | lib/core/raft.cc:220-229 | Without group commit, supported is acknowledged by a quorum |
| `RaftEffects.OtherAnswersIgnored` | lib/core/raft.cc:528-605 | A rejection, an old acknowledgement and one of a stranger change nothing a leader has committed |
| `RaftEffects.HeartbeatCommits` | lib/core/raft.cc:625-642 | A heartbeat makes its sender the leader and commits what it reports, exactly if the log goes that far |
| `RaftEffects.AppendAdopted` | lib/core/raft.cc:1386-1460 | An append that fits is in the log afterwards, leaves the log before it as it was, commits what it reports of itself and is acknowledged to its end |
| `RaftEffects.AppendRefused` | lib/core/raft.cc:1426-1456 | One that does not fit changes nothing and is answered with the largest index, not after the one in question, whose term is not above the leader's |
| `RaftEffects.OldAppendAnswered` | lib/core/raft.cc:1393-1404 | One from before the commit index is answered with the commit index |
| `RaftEffects.ReadIndexCommits` | lib/core/raft.cc:809-902 | A read-index answer commits its index exactly if the follower has an entry of the leader's term there |
| `RaftEffects.StaleAnswered` | lib/core/raft.cc:1283-1310 | A message of an older term changes nothing; exactly a stale leader, where terms may be stuck, and a stale pre-candidate are told the newer term |
| `RaftEffects.LaterTermAdopted` | lib/core/raft.cc:1253-1282 | Learning of a later term ends leading and standing, and frees the vote |
| `RaftEffects.LeaderStepsDown` | lib/core/raft.cc:1081-1086 | A leader without a quorum follows nobody, in the same term and with the same vote and log |
| `RaftEffects.LeaderSends` | lib/core/raft_core.cc:121-147 | An append is a stretch of the leader's log with the term before it; a heartbeat reports no more than the peer has acknowledged |
| `RaftEffects.ProposalAppended` | lib/core/raft.cc:1141-1166 | Proposals go to the end of the leader's log, in order, under its term |
| `RaftRecords.Completeness` | lib/core/raft.cc:1320-1349 | An index acknowledged by a quorum in one term is in the log of every later leader; by induction over the order of elections |
| `RaftRecords.DecidedComparable` | lib/core/raft.cc:220-229 | Whatever two leaders decide, one decision extends the other |
| `RaftSteps.HandleKeeps` | lib/core/raft.cc:1249-1384 | Every event keeps the invariant of the node, of the history and of every message sent |
| `RaftSteps.StepKeeps` | lib/core/raft.cc:1249-1384 | Every message, of any term and in any role, keeps that invariant |
| `RaftSteps.AppendEntriesKeeps` | lib/core/raft.cc:1386-1460 | Handling an append keeps what was acknowledged and committed, never fails, and its answer is true of the log |
| `RaftSteps.AcceptKeeps` | lib/core/raft_log.cc:154-189 | A matching append makes the log agree with the leader's up to the last new index, which may then be acknowledged |
| `RaftSteps.HeartbeatKeeps` | lib/core/raft.cc:625-642 | The commit index of a heartbeat never passes what the receiver shares with the leader |
| `RaftSteps.RequestVoteKeeps` | lib/core/raft.cc:1316-1366 | Answering a vote or pre-vote request keeps the invariant, refusals with their commit report included |
| `RaftSteps.GrantKeeps` | lib/core/raft.cc:1320-1349 | A granted vote is recorded once per term and goes to a log at least as good as the voter's |
| `RaftSteps.CommitByVoteKeeps` | lib/core/raft.cc:482-518 | Fast-forwarding the commit index from a vote message commits only what is decided |
| `RaftSteps.PollCandidateKeeps` | lib/core/raft.cc:314-338 | Counting a vote keeps the invariant; winning starts a reign backed by a quorum |
| `RaftSteps.CampaignKeeps` | lib/core/raft.cc:340-385 | A campaign keeps the invariant, and its requests describe the candidate's log |
| `RaftSteps.HupKeeps` | lib/core/raft.cc:387-420 | So does an election timeout, with or without pre-vote |
| `RaftSteps.AppendResponseKeeps` | lib/core/raft.cc:528-605 | An acknowledgement moves the leader's commit index only to what a quorum holds |
| `RaftSteps.MatchedIsChosen` | lib/core/raft.cc:220-229 | The commit index a leader computes is acknowledged in its term by a quorum |
| `RaftSteps.ProposeKeeps` | lib/core/raft.cc:203-218 | A proposal that does not stop the leader extends the leader's own log and nothing else |
| `RaftSteps.PersistKeeps` | lib/core/raft.cc:250-266 | A persistence report counts as the leader's own acknowledgement |
| `Raft.Raft.constructor` | lib/core/raft.cc:86-133 | A node over an empty log starts as the model's fresh node |
| `Raft.Raft.Step` | lib/core/raft.cc:1249-1384 | Over the two-tier log and in place, a message changes the node and sends messages exactly as the model does, and stops the process exactly where it does |
| `Raft.Raft.Dispatch` | lib/core/raft.cc:1306-1384 | The same once terms are settled |
| `Raft.Raft.StepCandidate` | lib/core/raft.cc:756-807 | The same for candidates and pre-candidates |
| `Raft.Raft.StepFollower` | lib/core/raft.cc:809-902 | The same for followers |
| `Raft.Raft.StepLeader` | lib/core/raft.cc:1074-1237 | The same for leaders, as far as their own state goes |
| `Raft.Raft.HandleAppendEntries` | lib/core/raft.cc:1386-1460 | The log, the cursors and the answer are the model's, hint and all; it stops exactly on a conflict with a committed entry |
| `Raft.Raft.HandleHeartbeat` | lib/core/raft.cc:625-642 | Commit index and answer are the model's |
| `Raft.Raft.HandleAppendResponse` | lib/core/raft.cc:528-605 | The acknowledged index and the new commit index are the model's |
| `Raft.Raft.Grants` | lib/core/raft.cc:1324-1333 | A vote is granted exactly by the model's rule: free or same vote, an up-to-date log, and a longer log or no lower priority |
| `Raft.Raft.Propose` | lib/core/raft.cc:1087-1166 | A proposal that is not dropped extends the log as the model says; one without entries stops the process |
| `Raft.Raft.SetPriority` | lib/core/raft.cc:1550-1552 | The priority changes and nothing else |
| `Raft.Raft.HandleRequestVote` | lib/core/raft.cc:1316-1366 | Vote, answer and commit fast-forward are the model's; it stops exactly when the answer would carry term 0 |
| `Raft.Raft.MaybeCommitByVote` | lib/core/raft.cc:482-518 | The commit index and a possible step-down are the model's |
| `Raft.Raft.LeaderCommit` | lib/core/raft.cc:220-229 | The leader commits the joint quorum index if its entry has the current term |
| `Raft.Raft.CommitAt` | lib/core/raft_log.cc:146-152 | On an uncompacted log the commit by index and term is the model's |
| `Raft.Raft.Hup` | lib/core/raft.cc:387-420 | Election, pre-election, transfer or nothing, as the model says |
| `Raft.Raft.Campaign` | lib/core/raft.cc:340-385 | The new candidate, its own vote, and one request to every other voter in any order |
| `Raft.Raft.PreCampaign` | lib/core/raft.cc:340-385 | Likewise for a pre-election, which a single voter wins at once |
| `Raft.Raft.PollCandidate` | lib/core/raft.cc:314-338 | The tally and its outcome are the model's |
| `Raft.Raft.PollPreCandidate` | lib/core/raft.cc:314-338 | Likewise; winning a pre-election starts the election |
| `Raft.Raft.SendVoteRequests` | lib/core/raft.cc:365-384 | The messages sent are exactly the model's vote requests |
| `Raft.Raft.RecordVote` | lib/core/progress_tracker.cc:75-77 | The first answer of a peer counts |
| `Raft.Raft.BecomeFollower` | lib/core/raft.cc:1801-1811 | Term, vote, leader, votes and progress are the model's |
| `Raft.Raft.BecomePreCandidate` | lib/core/raft.cc:272-278 | The term and the vote stay as they are |
| `Raft.Raft.BecomeCandidate` | lib/core/raft.cc:280-289 | A new term with the node's own vote |
| `Raft.Raft.BecomeLeader` | lib/core/raft.cc:291-312 | The new leader's log ends in an empty entry of its term |
| `Raft.Raft.Reset` | lib/core/raft.cc:1771-1799 | The vote survives unless the term changes, and every progress starts over |
| `Raft.Raft.AppendEntry` | lib/core/raft.cc:203-218 | Proposals are stamped with the term and numbered after the end of the log |
| `Raft.Raft.OnPersistEntries` | lib/core/raft.cc:250-266 | Either nothing changes or the node does what the model's persistence event does |
| `Raft.Raft.IsUpToDate` | lib/core/raft_log.cc:426-428 | Compares last terms, then last indices, of the log as a whole |
| `Backtrack.BacktrackExact` | lib/core/raft.cc:528-563 | For all logs with real, non-falling terms, probing ends exactly at the largest agreeing index, or with an answer at the follower's commit index exactly if that is beyond it; the rejections are no more than the leader has terms and no more than the entries given up |
| `Backtrack.RejectionStep` | lib/core/progress.cc:127-166 | One rejection lowers the probe, never below the agreement, and the next probe agrees or meets an older term |
| `Backtrack.AnswerIsReply` | lib/core/raft.cc:1393-1456 | The follower's side of the dialogue is what the append handler replies to any append, whatever entries it carries |
| `Backtrack.AgreementExists` | lib/core/raft.cc:1393-1456 | There is exactly one largest agreeing index |
| `Backtrack.ConflictByTerm` | lib/core/raft_log.cc:337-362 | The look-back finds the largest index whose term is not above the given one |
| `PlainLog.AppendAlike` | lib/core/raft_log.cc:154-189 | On an uncompacted log the append of the node model is that of the flat log, with the same conflict, persisted index and commit index |
| `PlainLog.BackToAlike` | lib/core/raft_log.cc:337-362 | On an uncompacted log the two-tier log's look-back is that one |
| `Quorum.MajorityCommittedIndex` | lib/core/majority_conf.cc:25-71 | Whatever the order of the voters and however ties are sorted, the result is the largest index a majority has acknowledged, and with two known groups one that voters of two groups have acknowledged too; without them the quorum index or the least one |
| `Quorum.CommittedIndexUnique` | lib/core/majority_conf.cc:25-71 | There is only one such result |
| `Quorum.GroupCommitWithinQuorum` | lib/core/majority_conf.cc:49-70 | Group commit never exceeds the plain quorum index |
| `Quorum.SortDescending` | lib/core/majority_conf.cc:39-42 | Sorting keeps the acknowledgements and orders them, largest first, equal ones anyhow |
| `Quorum.ScanGroups` | lib/core/majority_conf.cc:49-66 | The scan finds the first index of a second group, or that there is none |
| `Quorum.GetVoteResult` | lib/core/majority_conf.cc:73-100 | One pass in any order gives won, lost or pending by majority |
| `Quorum.JointCommittedIndex` | lib/core/joint_conf.cc:18-24 | The lesser of the two halves' indices |
| `Quorum.JointVoteResult` | lib/core/joint_conf.cc:26-41 | Won only if both halves are, lost if either is |
| `Quorum.WonIsQuorum` | lib/core/progress_tracker.cc:79-84 | An election is won exactly if the granting voters are a quorum of the joint configuration |
| `Quorum.CommittedIsQuorum` | lib/core/joint_conf.cc:18-24 | Everything up to the joint commit index is acknowledged by a quorum |
| `Quorum.CommittedExactly` | lib/core/joint_conf.cc:18-24 | An index is at or below the joint commit index if and only if each half with voters supports it; and the second result is true if and only if each has voters of two groups |
| `Quorum.CommittedIffQuorum` | lib/core/joint_conf.cc:18-24 | Without groups, everything that a quorum has acknowledged is committed, and nothing else |
| `Quorum.LostIsHopeless` | lib/core/joint_conf.cc:26-41 | An election is lost if and only if no further answers can win it |
| `Quorum.MajorityIsLeast` | lib/core/majority_conf.cc:15-17 | A majority is more than half, and nothing less is |
| `Quorum.JointSymmetric` | lib/core/joint_conf.cc:18-41 | The halves are interchangeable, and a configuration joint with itself, or with nothing, decides as it does alone |
| `Quorum.LaggardsDoNotCount` | lib/core/majority_conf.cc:25-71 | Whatever less a voter behind the commit index acknowledges, the commit index stays |
| `Quorum.GroupCommitIs` | lib/core/majority_conf.cc:44-70 | With voters of two groups, two groups have what is committed; with all voters in one group it is the plain quorum; otherwise all voters have it |
| `Quorum.QuorumsMeet` | lib/core/majority_conf.cc:15-17 | Two quorums of one configuration with voters share a voter |
| `ConfChange.CommittedSurvives` | lib/core/conf_changer.cc:106-167 | After any accepted change from a configuration with voters, votes that win under the new one include a voter that has acknowledged the old one's commit index |
| `ConfChange.AcceptedOverlaps` | lib/core/conf_changer.cc:205-247 | Every quorum before an accepted change meets every quorum after it, in a voter of both |
| `ConfChange.AdjacentMajoritiesMeet` | lib/core/conf_changer.cc:219-239 | Majorities of voter sets that differ by at most one voter meet |
| `ConfChange.ChangesStayClosed` | lib/core/conf_changer.cc:21-68 | Closed configurations stay closed; the checks before and after a change never refuse one, and leaving a joint configuration never fails |
| `ConfChange.ReachableClosed` | lib/core/conf_changer.cc:106-247 | Every configuration reachable from an empty tracker is closed: roles are disjoint, next learners are outgoing and not incoming voters, and exactly the members have a progress |
| `ConfChange.OneKeepsRoles` | lib/core/conf_changer.cc:268-313 | Every single change keeps the roles apart |
| `ConfChange.LastChangeDecides` | lib/core/conf_changer.cc:169-196 | For every list of changes, the last one that names an id decides its role: voter, or no member at all, or learner; an outgoing voter stays tracked, and becomes a learner only on leaving |
| `ConfChange.UnnamedKeepsRole` | lib/core/conf_changer.cc:169-196 | An id that no change names keeps its role |
| `ConfChange.TargetRoles` | lib/core/conf_changer.cc:106-247 | The same for the configuration that an accepted change leads to; the voters before it are the outgoing ones exactly while it is joint |
| `ConfChange.JointMeansAtOnce` | lib/core/conf_changer.cc:106-167 | For every list of changes, entering and leaving a joint configuration ends where making the changes at once would |
| `ConfChange.MergedCommutes` | lib/core/conf_changer.cc:136-167 | Leaving a joint configuration and making a change commute |
| `ConfChange.LeaveRoles` | lib/core/conf_changer.cc:136-167 | On leaving, the incoming voters stay, next learners become learners, and everyone else is forgotten |
| `ConfChange.OneChangeAccepted` | lib/core/conf_changer.cc:205-247 | A single change of a closed configuration is refused if and only if it leaves no voter |
| `ConfChange.EnterJointAccepted` | lib/core/conf_changer.cc:106-133 | Any list of changes is accepted through a joint configuration, if and only if there were voters and some are left |
| `ConfChange.DifferingIs` | lib/core/conf_changer.cc:219-239 | Voter sets are close enough for a change at once if and only if they are equal but for one id |
| `ConfChange.AcceptedIsSound` | lib/core/conf_changer.cc:21-68 | Whatever the tracker was like, an accepted configuration gives no id two roles and every member a progress |
| `ConfChanger.ConfCopy.Contains` | lib/core/conf_changer.cc:72-86 | The overlay's answer is membership in the progress map once all pending changes are made |
| `ConfChanger.ConfCopy.CheckInvariants` | lib/core/conf_changer.cc:21-68 | Succeeds exactly on configurations with the checked properties |
| `ConfChanger.ConfCopy.MakeVoter` | lib/core/conf_changer.cc:268-277 | Configuration and overlay after making a voter |
| `ConfChanger.ConfCopy.MakeLearner` | lib/core/conf_changer.cc:279-298 | Configuration and overlay after making a learner, now or on leaving the joint configuration |
| `ConfChanger.ConfCopy.RemoveMember` | lib/core/conf_changer.cc:300-313 | Configuration and overlay after a removal; an outgoing voter keeps its progress |
| `ConfChanger.ConfCopy.Apply` | lib/core/conf_changer.cc:169-196 | The changes one after the other, id 0 skipped; refused exactly if no voter is left |
| `ConfChanger.EnterJoint` | lib/core/conf_changer.cc:106-133 | Accepted exactly when the rules say, and then with the target configuration and progress keys |
| `ConfChanger.LeaveJoint` | lib/core/conf_changer.cc:136-167 | Likewise; members that are neither voters nor learners lose their progress |
| `ConfChanger.Simple` | lib/core/conf_changer.cc:205-247 | Likewise, for changes of at most one voter |
| `ConfChanger.CheckAndCopy` | lib/core/conf_changer.cc:249-255 | The copy starts as the tracker, or the tracker's configuration is refused |
| `ConfChanger.ProgressTracker.ApplyConf` | lib/core/progress_tracker.cc:47-65 | Progress keys become the overlay's; untouched peers keep their progress, new ones start afresh |
| `ConfChanger.ApplyConfChange` | lib/core/raft.cc:1698-1743 | The tracker takes on exactly the accepted changes and stays closed |
| `ConfRestore.ToConfState` | lib/core/tracker_conf.cc:29-65 | Lists every set once, in any order |
| `ConfRestore.ToConfChangeSingle` | lib/core/conf_restore.cc:17-71 | The two change lists, in order |
| `ConfRestore.Restore` | lib/core/conf_restore.cc:73-133 | A printed closed configuration with voters comes back into an empty tracker, joint or not, whatever the order of the lists, with exactly its members tracked; a closed tracker stays closed in any case |
| `ConfRestore.ApplyEach` | lib/core/conf_restore.cc:85-112 | The fallback succeeds exactly if every change leaves voters and the checks hold before and after |
| `ConfRestore.RoundTrip` | lib/core/conf_restore.cc:73-133 | Printing a closed configuration with voters and restoring it gives the same configuration and progress keys |
| `ConfRestore.IncomingRebuilds` | lib/core/conf_restore.cc:34-68 | The incoming changes turn the outgoing voters, or nothing, into the printed configuration |
| `FlatLog.SpliceIdempotent` | lib/core/raft_log.cc:154-189 | Applying the same append again changes nothing |
| `FlatLog.NoCutWhenAgreeing` | lib/core/raft_log.cc:165-184 | Entries that all agree cut nothing off |
| `FlatLog.SpliceKeeps` | lib/core/raft_log.cc:165-184 | Everything below the conflict is untouched |
| `FlatLog.ConflictFound` | lib/core/raft_log.cc:83-100 | The conflict is the first entry whose term differs, and 0 exactly if there is none |
| `FlatLog.ConflictInRange` | lib/core/raft_log.cc:154-189 | The conflict of a matching message is inside the log or right after it |
| `FlatLog.SplicedMatches` | lib/core/raft_log.cc:154-189 | After an append every one of its entries is in the log |
| `FlatLog.LimitSize` | lib/core/util.cc:29-60 | Cuts a list to its page |
| `FlatLog.PageIsGreedy` | lib/core/util.cc:29-60 | A page is the longest prefix within the limit, and never less than one entry |
| `FlatLog.LimitedStops` | lib/core/raft_log.cc:249-296 | A page that ends inside the stored part is the page of the whole range |
| `LogStore.MemoryStorage.MayAppend` | lib/core/memory_storage.cc:109-138 | Truncates and appends; refused exactly on a gap or compacted start |
| `LogStore.MemoryStorage.Compact` | lib/core/memory_storage.cc:84-103 | Drops the entries before an index and keeps the snapshot's place; the last index survives exactly unless everything is dropped |
| `LogStore.MemoryStorage.ApplySnapshot` | lib/core/memory_storage.cc:42-62 | A snapshot that is not outdated replaces the whole log |
| `LogStore.MemoryStorage.ApplyLocalSnapshot` | lib/core/memory_storage.cc:64-82 | Moves the snapshot and keeps the entries after it; leaves the storage inconsistent exactly when it refuses an index past the last entry |
| `LogStore.MemoryStorage.Entries` | lib/core/memory_storage.cc:208-238 | A page of a range inside the storage, or compacted |
| `LogStore.MemoryStorage.Term` | lib/core/memory_storage.cc:320-337 | Known exactly for the snapshot's index and the stored entries |
| `LogStore.MemoryStorage.AsFlat` | lib/core/memory_storage.cc:154-166 | First and last index of the storage are those of its flat log |
| `LogStore.Unstable.TruncateAndAppend` | lib/core/unstable_log.cc:101-123 | The three cases of where new entries start, with the size kept up to date |
| `LogStore.Unstable.StableEntries` | lib/core/unstable_log.cc:69-91 | The stored entries leave, and the offset moves behind them |
| `LogStore.Unstable.StableSnapshot` | lib/core/unstable_log.cc:125-135 | The stored snapshot leaves; entries stay |
| `LogStore.Unstable.Restore` | lib/core/unstable_log.cc:93-99 | A snapshot replaces everything |
| `LogStore.Unstable.MaybeTerm` | lib/core/unstable_log.cc:43-67 | Known exactly for its entries and a pending snapshot |
| `RaftLog.RaftLog.constructor` | lib/core/raft_log.cc:22-30 | A log over a storage reads as that storage, committed and applied up to its base |
| `RaftLog.RaftLog.Term` | lib/core/raft_log.cc:48-67 | Reads the flat log, whichever tier holds the entry |
| `RaftLog.RaftLog.LastIndex` | lib/core/raft_log.cc:69-74 | The flat log's last index |
| `RaftLog.RaftLog.FirstIndex` | lib/core/raft_log.cc:76-81 | The flat log's first index |
| `RaftLog.RaftLog.FindConflict` | lib/core/raft_log.cc:83-100 | The flat log's first conflict |
| `RaftLog.RaftLog.MatchTerm` | lib/core/raft_log.cc:102-107 | Whether the flat log has the term at the index |
| `RaftLog.RaftLog.FindConflictByTerm` | lib/core/raft_log.cc:337-362 | The flat log's look-back, and the term found if it is known |
| `RaftLog.RaftLog.Append` | lib/core/raft_log.cc:191-207 | Truncate, then append, on the flat log; the commit index gives way exactly if it must |
| `RaftLog.RaftLog.MaybeAppend` | lib/core/raft_log.cc:154-189 | The whole outcome on the flat log and all cursors, and the exact condition of each error; the commit index never falls |
| `RaftLog.RaftLog.CommitTo` | lib/core/raft_log.cc:209-222 | Never lowers the commit index; refused exactly past the end of the log |
| `RaftLog.RaftLog.MaybeCommit` | lib/core/raft_log.cc:146-152 | Commits exactly an index above the old one whose entry has the term |
| `RaftLog.RaftLog.AppliedTo` | lib/core/raft_log.cc:320-335 | The applied index moves between itself and the commit index |
| `RaftLog.RaftLog.MaybePersist` | lib/core/raft_log.cc:109-126 | Persists exactly an index above the persisted one and before the unstable part whose stored term is the given one |
| `RaftLog.RaftLog.MaybePersistSnapshot` | lib/core/raft_log.cc:128-144 | The persisted index rises to a snapshot's |
| `RaftLog.RaftLog.Restore` | lib/core/raft_log.cc:430-444 | A snapshot not older than the commit index replaces the log; cursors follow |
| `RaftLog.RaftLog.StableEntries` | lib/core/raft_log.cc:486-488 | Leaves the flat log unchanged once storage has taken the same entries |
| `RaftLog.RaftLog.StableSnapshot` | lib/core/raft_log.cc:482-484 | Leaves the flat log unchanged once storage has applied the same snapshot |
| `RaftLog.RaftLog.StoreUnstable` | lib/core/memory_storage.cc:109-138 | Storing the unstable entries leaves the flat log unchanged |
| `RaftLog.RaftLog.CompactStore` | lib/core/memory_storage.cc:84-103 | Compacting the storage moves the base of the flat log and nothing else |
| `RaftLog.RaftLog.Slice` | lib/core/raft_log.cc:249-296 | Across both tiers, the page of the flat range, never empty for a non-empty range; the exact condition of each error |
| `RaftLog.RaftLog.Scan` | include/raftpp/core/raft_log.h:104-125 | Ends for every page size; visits the range in order without gap or repeat, all of it unless a page was refused |
| `RaftLog.RaftLog.NextEntriesSince` | lib/core/raft_log.cc:446-476 | The page of what may be applied next: every entry committed, and persisted but for the limit; empty exactly if the next one is not |
| `RawNode.RawNode.constructor` | lib/core/raw_node.cc:58-64 | Delivery starts after the applied index, or after the log's base |
| `RawNode.RawNode.GetLightReady` | lib/core/raw_node.cc:341-364 | The next page right after the last entry delivered; all entries delivered stay the log after the start, in order, once, committed, not overwritten, and persisted but for the limit; empty exactly if the next entry is not committed or not persisted far enough |
| `RawNode.DeliveredIsLog` | lib/core/raw_node.cc:341-364 | As long as nothing delivered is compacted, the deliveries concatenate to the log from the starting applied index on |
| `RawNode.InOrderExtends` | lib/core/raw_node.cc:353-357 | One more page continues the deliveries without gap or repeat and moves the delivery cursor to its last entry |
| `RawNode.RawNode.GetReady` | lib/core/raw_node.cc:123-193 | The changed states, the unstable entries, a new number and its record, whether to sync, and the next page; stops exactly if a new leader still has unstored entries outstanding |
| `RawNode.RawNode.CommitReady` | lib/core/raw_node.cc:306-328 | Stored entries become stable, the log reads the same, and the reported states become the previous ones |
| `RawNode.RawNode.OnPersistReady` | lib/core/raw_node.cc:233-265 | Drops exactly the records a report covers, persists the last place they asked for exactly if the log still has it, and then commits exactly what the quorum allows |
| `RawNode.RawNode.PopCovered` | lib/core/raw_node.cc:238-256 | The loop over the record queue |
| `RawNode.RawNode.AdvanceAppend` | lib/core/raw_node.cc:267-296 | What the last ready asked for is persisted, to the end of the log; more may be delivered, a risen commit index is reported, and the hard state is up to date |
| `RawNode.RawNode.AdvanceApplyTo` | lib/core/raw_node.cc:298-300 | Applying what was delivered never fails |
| `RawNode.RawNode.Advance` | lib/core/raw_node.cc:334-339 | What had been delivered counts as applied, and that never fails |
| `RawNode.RawNode.HandleAppend` | lib/core/raft_log.cc:154-189 | An append keeps everything delivered and never makes an entry inapplicable again |
| `RawNode.RawNode.AppendOwn` | lib/core/raft.cc:203-218 | Own entries keep everything delivered |
| `RawNode.RawNode.HandleCommit` | lib/core/raft.cc:625-628 | A heartbeat's commit keeps everything delivered |
| `RawNode.RawNode.CommitAt` | lib/core/raft_log.cc:146-152 | A commit by quorum or vote keeps everything delivered |
| `RawNode.RawNode.LimitUnpersisted` | lib/core/raft.cc:1801-1811 | Stepping down takes nothing delivered back; over the whole life of a node, nothing is delivered further beyond what is persisted than the largest limit there was, so with limit 0 nothing before it is persisted |
| `RawNode.RawNode.PersistAll` | lib/core/raw_node.cc:267-280 | If the last ready had entries, the whole log is persisted |
| `RawNode.RawNode.StoreReady` | lib/core/memory_storage.cc:109-138 | Storing a ready's entries keeps everything delivered |
| `RawNode.RawNode.Compact` | lib/core/memory_storage.cc:84-103 | Compacting what was delivered keeps the order of delivery |
| `Inflights.Inflights.Add` | lib/core/inflights.cc:114-139 | Adds at the end of the queue; none of the asserts can fail when there is room |
| `Inflights.Inflights.FreeTo` | lib/core/inflights.cc:67-105 | Drops exactly the longest prefix not above the argument, through wrap-around |
| `Inflights.Inflights.Leading` | lib/core/inflights.cc:73-90 | The loop counts that prefix |
| `Inflights.Inflights.FreeFirstOne` | lib/core/inflights.cc:107-112 | Drops the prefix not above the oldest value |
| `Inflights.Inflights.SetCapacity` | lib/core/inflights.cc:14-54 | The bound changes and the contents survive: growth while wrapped, delayed shrinking and reset included |
| `Inflights.Inflights.Reset` | lib/core/inflights.cc:56-65 | Empties the queue and keeps the wanted bound |
| `Inflights.Inflights.Full` | lib/core/inflights.cc:141-149 | Full exactly if the queue has reached its bound |
| `Progress.Progress.constructor` | lib/core/progress.cc:16-26 | In order exactly unless it starts at index 0 |
| `Progress.Progress.Reset` | lib/core/progress.cc:28-37 | Everything is forgotten; in order exactly unless it restarts at index 0 |
| `Progress.Progress.BecomeProbe` | lib/core/progress.cc:39-48 | Probing restarts after the acknowledged index or the pending snapshot |
| `Progress.Progress.BecomeReplicate` | lib/core/progress.cc:50-53 | Replication starts after the acknowledged index with an empty window |
| `Progress.Progress.BecomeSnapshot` | lib/core/progress.cc:55-58 | Waiting for a snapshot, with an empty window |
| `Progress.Progress.MaybeUpdate` | lib/core/progress.cc:78-90 | Acknowledged and next index rise together |
| `Progress.Progress.Acknowledge` | lib/core/raft.cc:564-587 | The window moves up, what is covered leaves it, and it stays strictly rising between matched and next |
| `Progress.Progress.UpdateState` | lib/core/progress.cc:92-104 | A sent message enters the window at its end; there is always room and the state is never Snapshot |
| `Progress.Progress.MaybeDecTo` | lib/core/progress.cc:127-166 | When a rejection counts, and exactly where probing goes on |
| `Progress.Progress.Nudge` | lib/core/raft.cc:913-933 | A full window loses exactly its oldest message |
| `Replication.RaftCore.MaybeSendAppend` | lib/core/raft_core.cc:273-317 | Sends the page at the next index, as many entries as the message size allows, with the right previous term, or a snapshot, or nothing; the message enters the window; aggressively it sends exactly if there is more to send |
| `Replication.RaftCore.SendAppendAggressively` | lib/core/raft_core.cc:153-155 | Ends, having sent one contiguous run from the old next index on, perhaps a snapshot after it, and with nothing left to send; the window grows by one a message and never past its bound |
| `Replication.PageFills` | lib/core/raft_core.cc:121-147 | A message is within the size limit or a single entry, and one entry more would be too much |
| `Replication.RunIsRange` | lib/core/raft_core.cc:153-155 | The entries of a run are a stretch of the log, without gap or repeat |
| `Replication.RaftCore.PrepareSendEntries` | lib/core/raft_core.cc:121-147 | Message and window after sending a page |
| `Replication.RaftCore.PrepareSendSnapshot` | lib/core/raft_core.cc:202-271 | Sends the available snapshot to an active peer and waits for it |
| `Replication.RaftCore.GetEntries` | lib/core/raft_log.cc:298-306 | The page from the next index on, empty past the end |
| `Replication.RaftCore.HandleAppendResponse` | lib/core/raft.cc:528-605 | Through acknowledgement and rejection the window stays in order; news commits exactly what the quorum allows, is told at once where the source says so, and leaves nothing sendable; a rejection that is not stale makes the leader probe again, exactly where the look-back says; anything else sends nothing |
| `Replication.RaftCore.Reject` | lib/core/raft.cc:546-563 | The exact fall-back of the window |
| `Replication.RaftCore.HandleHeartbeatResponse` | lib/core/raft.cc:913-943 | A peer that is behind gets a message, for which a full window gives up its oldest |
| `Replication.RaftCore.HandleSnapshotStatus` | lib/core/raft.cc:966-991 | Back to probing, paused, after the snapshot or after the acknowledged index |
| `Replication.RaftCore.HandleUnreachable` | lib/core/raft.cc:993-1006 | Replication falls back to probing |
| `Replication.RaftCore.AdjustMaxInflight` | lib/core/raft.cc:1836-1841 | The bound changes, the messages in flight do not |
| `Record.ParseBuilt` | lib/raftor/wal/record.cc:17-70 | A built record parses back, whatever follows it, and its size is its total, a multiple of 8 |
| `Record.Layout` | include/raftpp/raftor/wal/record.h:50-78 | The format of a record, byte by byte: checksum, kind, length and padding lowest byte first, payload, zeros to a multiple of 8 |
| `Record.RecordBuilder.Build` | lib/raftor/wal/record.cc:17-45 | Header, payload and zero padding in one buffer |
| `Record.RecordParser.constructor` | lib/raftor/wal/record.cc:47-70 | Accepts exactly enough bytes with the right checksum, and then yields header and payload |
| `Record.HeaderRoundTrip` | include/raftpp/raftor/wal/record.h:57-65 | A header reads back from its 16 bytes |
| `Record.PaddingAligns` | include/raftpp/raftor/wal/record.h:68-77 | Padding brings a record to the next multiple of 8 |
| `WalReplay.CutReplay` | lib/raftor/wal/wal.cc:312-373 | For every list of records and every byte cut, replay finds exactly the records wholly inside, and the segment ends after the last, 8-byte aligned |
| `WalReplay.ZeroTailReplay` | lib/raftor/wal/wal.cc:312-373 | Likewise with any zero-filled tail |
| `WalReplay.WholeIsLargest` | lib/raftor/wal/wal.cc:312-373 | The records found are as many as fit before the cut |
| `WalReplay.DamageReplay` | lib/raftor/wal/wal.cc:358-373 | For every list of records, if the bytes of one no longer have the checksum stored with them, replay finds exactly the records before it and ends at its start, whatever follows |
| `WalReplay.DamagedAccepted` | lib/raftor/wal/record.cc:47-70 | Bytes of a record's length are accepted if and only if their checksum is the one stored with them and they do not look like empty space |
| `WalReplay.ScanCut` | lib/raftor/wal/wal.cc:312-373 | For any bytes at all, replay of a prefix finds the records that end in it |
| `WalReplay.RecordProgress` | lib/raftor/wal/wal.cc:340-370 | The 32-bit total of an accepted record cannot wrap, so replay always moves on |
| `WalIndex.WalIndex.Insert` | lib/raftor/wal/wal_index.cc:5-35 | Only the next index is recorded under its own number |
| `WalIndex.WalIndex.TruncateFrom` | lib/raftor/wal/wal_index.cc:52-65 | Removes exactly the indices from the given one on |
| `WalIndex.WalIndex.TruncateBefore` | lib/raftor/wal/wal_index.cc:67-82 | Removes exactly the indices before the given one |
| `WalIndex.SegmentManager.GetCurrentSegment` | lib/raftor/wal/segment_manager.cc:77-90 | The current segment, made on demand |
| `WalIndex.SegmentManager.RollToNewSegment` | lib/raftor/wal/segment_manager.cc:92-125 | A new segment with the next id |
| `WalIndex.SegmentManager.RemoveSegment` | lib/raftor/wal/segment_manager.cc:163-197 | Removes one segment; the highest one left is current |
| `WalIndex.SegmentManager.GetSegmentForIndex` | lib/raftor/wal/segment_manager.cc:127-143 | The last segment, in order of ids, before one that starts later |
| `WalIndex.SegmentForIs` | lib/raftor/wal/segment_manager.cc:127-143 | A segment is found for an index exactly if the starts of the segments straddle it there |
| `WalIndex.FoundByOwnLabel` | lib/raftor/wal/segment_manager.cc:127-143 | Every segment is the one found for its own label if and only if the labels rise |
| `WalIndex.SegmentManager.Found` | lib/raftor/wal/segment_manager.cc:20-75 | The segments that are there, the highest of them current |
| `WalEntries.FaithfulFlushed` | lib/raftor/wal/wal.cc:1220-1249 | Writing the buffer and indexing its records keeps what replay would find the same as the index |
| `WalEntries.FaithfulCut` | lib/raftor/wal/wal.cc:621-654 | So does cutting the log at an entry |
| `WalEntries.RisingRecovered` | lib/raftor/wal/wal.cc:280-297 | If the labels rise, recovery reads every segment once and in order |
| `WalEntries.SettledSame` | lib/raftor/wal/wal.cc:312-373 | A segment cut where its replay ends has the same records, and replays to its end |
| `Wal.Wal.Append` | lib/raftor/wal/wal.cc:487-604 | Through buffer flushes, oversize records, segment rolls and suffix overwrites, every live index maps to the segment, offset and length of exactly its record, and replaying the files would find exactly the indexed entries where the index has them; the exact condition of refusal |
| `Wal.Wal.MakeRoom` | lib/raftor/wal/wal.cc:494-511 | The entry is the next one, or the suffix from its index on is cut away, or the append is refused |
| `Wal.Wal.AppendOne` | lib/raftor/wal/wal.cc:519-587 | A full segment gets no further record |
| `Wal.Wal.FlushWriteBuffer` | lib/raftor/wal/wal.cc:1220-1249 | The buffered records move to the segment and into the index |
| `Wal.Wal.IndexPending` | lib/raftor/wal/wal.cc:1238-1243 | Each buffered record is indexed where it was written |
| `Wal.Wal.MaybeRollSegment` | lib/raftor/wal/wal.cc:656-676 | Rolls exactly if the segment is full, after flushing to it, and loses nothing |
| `Wal.Wal.WriteDirect` | lib/raftor/wal/wal.cc:537-560 | A record larger than the buffer is indexed where it was written |
| `Wal.Wal.TruncateSuffixFrom` | lib/raftor/wal/wal.cc:621-654 | Cuts bytes, later segments and index at an entry and keeps all before it; the exact condition of refusal |
| `Wal.Wal.MayCutAtIs` | lib/raftor/wal/wal.cc:629-634 | A suffix may be replaced exactly if the starts of the segments straddle its first index at the segment that holds it |
| `Wal.Wal.SaveHardState` | lib/raftor/wal/wal.cc:678-704 | A hard state's record disturbs no entry; it rolls exactly if the flushed segment is full, and then an entry may be replaced exactly if it might before and is not in the segment left behind at or above the log's first index |
| `Wal.OverwriteAfterHardState` | lib/raftor/wal/wal.cc:678-704 | For every log, an entry that fills its segment can no longer be replaced once a hard state has been saved: the overwriting append is refused |
| `Wal.FreshOverwriteRefused` | lib/raftor/wal/wal.cc:678-704 | The same from a new log on |
| `WalIndex.RolledLookup` | lib/raftor/wal/segment_manager.cc:127-143 | A new last segment hides the one before it from the indices its label does not exceed, and no other |
| `Wal.Wal.ReplaySegment` | lib/raftor/wal/wal.cc:312-485 | Indexes exactly the entries a scan finds and cuts the segment where it ends; fails exactly if they do not continue the log |
| `Wal.Wal.Recover` | lib/raftor/wal/wal.cc:256-310 | Reads, for each segment in order, the one found for its label; succeeds exactly if the entries read continue from the first index and reach the commit index; and then indexes exactly those, and cuts each segment read where its replay ends |
| `Wal.Wal.RecoverOne` | lib/raftor/wal/wal.cc:280-297 | One round of that loop |
| `WalRecovery.Reopen` | lib/raftor/wal/wal.cc:256-310 | If the labels rise, then after any crash of the last segment exactly the entries whose records are left come back, in order, indexed where they were, in a log that can crash again; refused exactly if a committed entry is lost |
| `WalRecovery.ReopenIntact` | lib/raftor/wal/wal.cc:256-310 | Without a crash nothing changes |
| `WalRecovery.ReopenAfterCut` | lib/raftor/wal/wal.cc:312-373 | A cut at any byte loses exactly the entries whose records end after it |
| `WalRecovery.ReopenAfterDamage` | lib/raftor/wal/wal.cc:358-373 | Damage that the checksum shows loses exactly the damaged entry and those after it, whatever bytes follow |
| `WalRecovery.CutLeaves` | lib/raftor/wal/wal.cc:312-373 | A cut anywhere leaves the records that end before it and then no record |
| `WalRecovery.ZerosLeave` | lib/raftor/wal/wal.cc:331-338 | Space that was allocated and never written costs nothing |
| `WalRecovery.LaterFirstIndex` | lib/raftor/wal/wal.cc:392-409 | Replay with a later first index finds exactly the entries from it on |
| `WalRecovery.LiveExactly` | lib/raftor/wal/wal.cc:376-414 | Replay takes exactly the entries that parse, from the first index on, each with its place |
| `WalRecovery.HardStateForgets` | lib/raftor/wal/wal.cc:280-297 | If the last segment is full and holds the last entry, saving a hard state and opening the log again, with no crash at all, does not bring that entry back; if it was committed, the log cannot be opened any more |
| `WalRecovery.FreshForgets` | lib/raftor/wal/wal.cc:280-297 | It happens to a new log with one entry |

## Left out

- Live membership change in the protocol model: quorum overlap across changes is proved apart from it.
- Snapshots and restarts in the protocol model; the two-tier log and the peer state machine have snapshots.
- Liveness: `RaftProgress` shows that a way on always exists, not that timers and messages take it.
- `ReadOnly`, `ProposalTracker`, queues, `Raftor` and its snapshot policy: only easy members.
- Uncommitted-size accounting, entry checksums and `TryBatching`.
- Serialisation formats, CRC32C itself, file-system calls, `WAL::Compact`, snapshot files and `MetadataStore`.
- Snapshot, transfer and read-index requests as messages of the protocol model, and what they could stop.
- `MemoryStorage` switches that make the log or a snapshot temporarily unavailable.
- Which of several failed checks `CheckInvariants` reports first: it depends on the order of a hash set.
- Raft.Raft.Propose: leaves out the rules that drop a proposal, because a dropped proposal changes nothing, and leaves the broadcast to the send events.
- Raft.Raft.StepLeader: leaves the appends, heartbeats and timeout messages a leader sends to the separate send events and to `Replication.RaftCore`.
- Raft.Raft.HandleAppendResponse: leaves the peer's window to `Replication.RaftCore.HandleAppendResponse`.
- Replication.RaftCore.HandleAppendResponse: takes the quorum index as a parameter and follows one peer of a broadcast.
- Replication.RaftCore.HandleHeartbeatResponse: leaves out the read-index acknowledgements.
- Replication.RaftCore.PrepareSendSnapshot: does not model the panic on a snapshot with index 0.
- RawNode.RawNode.GetReady: leaves out snapshots, messages and read states.
- RawNode.RawNode.AdvanceAppend: leaves out the panic on messages of a node that does not lead, because messages are left out.
- Wal.Wal.ReplaySegment: skips batch and hard-state records, which carry no entry that `Append` writes.
- Wal.Wal.Recover: takes the first index, the snapshot index and the commit index as given, because the metadata file is left out.
- Wal.Wal.SaveHardState: leaves out the metadata file.
- Quorum.SortDescending: sorts by insertion on a sequence; the order of equal indices is left open as in the source.
