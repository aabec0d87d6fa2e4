# Wag: a verified model of the policy compiler, the packet filter and the stores behind them

Wag is a WireGuard gateway. Administrators write text rules (`10.0.1.0/24 443/tcp 22/any`) in three
lists, mfa, allow and deny. The rules of a user are compiled into buckets of policies keyed by IPv4
prefix; an XDP program picks one bucket for each packet by longest prefix and folds over it; an mfa
policy lets a packet pass only while the device has a live session. Sessions, users and devices live in
an etcd store that every node of a cluster follows.

This project models that core in Dafny and proves what it promises.

| file | what it models |
|---|---|
| `policies.dfy`, `prefixes.dfy`, `text.dfy` | policies and their flags, prefixes and longest match, the string functions the parsers rest on |
| `rules.dfy`, `compiler.dfy` | reading a rule, and collecting rules into padded buckets behind a cache |
| `documented.dfy` | the examples of the rule documentation, read from their text |
| `filter.dfy` | the decision on one packet |
| `meaning.dfy` | compiler and filter together: what the compiled table lets pass is what the rules say |
| `router.dfy` | the firewall's own state and every call that changes it |
| `sessions.dfy` | what must have happened before an mfa policy lets a packet through |
| `endtoend.dfy` | the verdict on a packet after any run, from the calls made and the stored policies |
| `removal.dfy` | what is left of a removed user, and what brings the user back |
| `cluster.dfy`, `accounts.dfy` | how a node follows the stored records of devices and of users |
| `safeupdate.dfy` | the compare-and-swap loop that all stored records go through, alone and with many clients |
| `attempts.dfy`, `tokens.dfy` | two clients of that loop: authentication attempts and registration tokens |
| `allocator.dfy`, `reservations.dfy` | the scan for a free address, and holding and committing it |
| `groups.dfy`, `effectiveacl.dfy` | groups against memberships, and the rules that apply to a user |
| `wire.dfy` | byte layouts, the packet parser, test packets and store keys |

Code that changes state step by step is a class or a method with loops (`RuleCompiler`, `XdpMaps`,
`Firewall`, `StoredKey`, `GroupStore`, the handlers, the scan), each proved equal to a function of the
state before; the theorems are about those functions and hold over every run. Concurrent protocols are
state machines over the steps that the store makes atomic.

## Where the code and its promise part

Each of these is stated as a lemma with the exact condition, or with a concrete family of inputs.

- Port numbers are cut to 16 bits. A service keeps its meaning exactly when it is `Storable`; port 65536
  becomes 0, which matches every port (`Rules.StorableExactly`, `Rules.WrappedPortOpensEverything`).
- A bucket of exactly 128 policies is accepted but has no end marker, so it drops everything it decides;
  one of more than 128 empties the whole table of the user (`Meaning.CompiledVerdict`,
  `Meaning.FullBucketDrops`). One allow rule with 128 services does it (`Meaning.FullRuleDrops`).
- `README.md:244` describes `Lockout` as the number of attempts a person may make. The attempt is counted
  before it is compared, so one fewer reaches the authenticator (`Attempts.AttemptsAreBounded`,
  `Attempts.CallAlone`).
- A comment in the allocator says that the largest address is not handed out. It is, exactly when it is
  free and every host from the random start up is taken (`Allocator.FindsFirstFree`). On a full subnet
  the scan ends exactly when it began at the first host (`Allocator.EndsExactly`). With the server on the
  last address the scan can leave the subnet (`Allocator.StaysInsideExactly`).
- The commit of a new device does not check that its address is still free, and a deletion does not check
  that the reference it deletes is the one it read. Devices and references match exactly as long as both
  checks would have succeeded (`Reservations.MatchedExactly`); a late commit, or a device deleted twice at
  once, can put two users on one address (`Reservations.LateCommitShares`,
  `Reservations.StaleDeletionShares`), and exactly then a commit finds another user's record
  (`Reservations.OneEachExactly`).
- A registration token can be used more often than it has uses, exactly when a call reads the last use
  after another has taken it and before the token is deleted (`Tokens.UsesExceededExactly`,
  `Tokens.LastUseIsShared`).
- Of the modelled calls, three bring the account of a removed user back: adding the user, setting the
  account's lock, and refreshing the configuration with the user in the store
  (`Removal.AccountExactly`). After the second, packets pass although the user was never added again
  (`Removal.LockLetsPacketsPass`).
- Changing the public key of a device whose entry is gone files its address under a user without the
  device. A call keeps the indexes in agreement exactly when it is made in the name of the device's owner
  (`Router.StepAgreesExactly`).
- A session expiry that lands exactly on the largest 64-bit number reads as "no expiry", which matters
  only at the last instant of the clock (`Sessions.ExpiryHolds`); an inactivity timeout in whole minutes
  never wraps to that number (`Router.MinutesAreNotTheSentinel`).

## Model

| member | source | states |
|---|---|---|
| `EndToEnd.VerdictIsHistory` | internal/router/xdp.c:482-604 | After any run from an empty firewall under one clock, a packet passes if and only if one end is a device by the calls made so far, its owner has been given lists, and those lists as written let it pass, within the limits of a bucket, with the session those calls and packets leave; storable ports are asked of the owner's lists only |
| `EndToEnd.VerdictIsStored` | internal/data/acls.go:87-206 | When the lists last given to the owner are the effective ones of a store, with storable ports and buckets below the limit, the packet passes exactly when the rules that apply to the owner in that store, in any order and number, say so |
| `EndToEnd.RoutesFollowLists` | internal/router/bpf.go:317-404 | After any run the table of a user is the compiled form of the lists last given for that user, and there is none after a removal |
| `EndToEnd.AccountsFollow` | internal/router/bpf.go:295-374 | After any run a user has the account, and its lock, that the calls about that user say |
| `EndToEnd.EntriesFollow` | internal/router/bpf.go:268-293 | After any run an address is a device of the owner, on the node, that the calls say, or of no one |
| `EndToEnd.SessionsFollow` | internal/router/xdp.c:528-552 | After any run under one clock a device has the session that grants, endings and the packets heard from it make, all told from the calls: owner, account, lists, covering rules and timeout |
| `EndToEnd.RecordingIsHeard` | internal/router/xdp.c:548-552 | A packet records activity exactly when its owner has an account and lists with a rule that covers the other end, and it comes within the timeout of the last activity |
| `EndToEnd.SettingsFollow` | internal/router/bpf.go:574-586 | After any run the timeout is the one last set or refreshed |
| `EndToEnd.KeysFollow` | internal/router/wireguard.go:195-325 | After any run the key filed for a device, by which its peer is removed, is the one it was added with or last rekeyed to |
| `Meaning.CompiledVerdict` | internal/routetypes/parser.go:55-153 | A packet of a device whose user holds the compiled table passes exactly when every bucket has at most 128 policies, the deciding one fewer than 128, and the direct reading of the rules lets it pass: on the longest covering prefix something matches, nothing that matches denies, and a matching mfa rule finds a live session. For every three lists, table state, packet and clock, with storable ports |
| `Meaning.CompilationPreservesMeaning` | internal/routetypes/parser.go:71-144 | With every bucket below 128, the filter on the compiled table gives the verdict of the rules as written, in whatever order they were written |
| `Meaning.FullBucketDrops` | internal/router/xdp.c:555-604 | A deciding bucket of exactly 128 policies drops every packet, whatever its rules |
| `Meaning.FullRuleDrops` | internal/routetypes/parser.go:132-144 | One allow rule with 128 services or more is enough: as written it lets the packet pass, and the compiled table drops it |
| `Meaning.CompiledTableVerdict` | internal/router/xdp.c:533-604 | The same equivalence for the table alone: one address, protocol, port and session answer |
| `Meaning.PassesByTable` | internal/router/xdp.c:482-604 | The verdict of the filter is the verdict of the table of the device's owner on the address and port at the other end |
| `Meaning.CompiledTableHolds` | internal/router/bpf.go:317-336 | If every bucket fits, the table has one entry for each prefix a readable rule names, and that entry is its padded bucket; otherwise the table is empty |
| `Meaning.AddRoutes` | internal/router/bpf.go:324-333 | Putting the routes one by one leaves the table extended by the last route of each prefix |
| `Meaning.TableHolds` | internal/router/bpf.go:324-333 | Routes with distinct prefixes are all in the table, each with its values, and nothing else is |
| `Meaning.BucketMembers` | internal/routetypes/parser.go:71-130 | A policy is in the bucket of a prefix exactly when some service of some rule on that prefix compiles to it |
| `Meaning.BucketMeaning` | internal/router/xdp.c:554-604 | Under storable ports the fold over a bucket permits a packet exactly when the rules on that prefix do |
| `Meaning.PaddedReads` | internal/router/bpf.go:803-811 | Up to the first stop, if there is one, a padded bucket is the bucket, which below 128 policies is also what the listing of rules shows |
| `Meaning.FitsMeans` | internal/routetypes/parser.go:132-136 | The length test of the padding loop accepts exactly when no prefix has more than 128 policies |
| `Meaning.ReadingIsOfSets` | README.md:409-500 | The direct reading depends only on which rules are written, not on their order or repetition |
| `Meaning.SortedReading` | internal/routetypes/parser.go:41-43 | Sorting the lists does not change what they say |
| `Rules.ReadRule` | internal/routetypes/parser.go:183-222 | A rule that is read has the effect of its list, and no port range in it is upside down |
| `Rules.ReadService` | internal/routetypes/parser.go:261-288 | A service that is read is icmp, a port or a range with its bounds in order |
| `Rules.ReadWrittenRule` | internal/routetypes/parser.go:183-222 | A rule written as an address and documented services reads back as exactly those services on that address, an address alone as everything, an unknown address as an error |
| `Rules.ReadWrittenService` | internal/routetypes/parser.go:261-366 | Every documented service reads back as itself from its written form |
| `Rules.AcceptedExactly` | internal/routetypes/parser.go:261-366 | Without a slash only icmp is a service; with one, the part after it must be any, tcp or udp in whatever case, and the part before it a number or two in order |
| `Rules.CaseDoesNotMatter` | internal/routetypes/parser.go:281-283 | Services that differ only in the case of the protocol read alike, errors included |
| `Documented.ComposedVerdict` | README.md:428-443 | The documentation's example of composed rules, read from its text: on 10.0.1.1 port 443 is open, port 22 needs a session, nothing else passes, and the rest of 10.0.0.0/16 needs a session |
| `Documented.ShadowedVerdict` | README.md:463-475 | The documentation's example of a specific deny rule, read from its text: port 443 is open on 10.0.0.0/24 except on 10.0.0.5, where nothing is |
| `Text.SpaceSeparates` | internal/routetypes/parser.go:184 | Blanks, tabs and line ends separate the words of a rule, as many as there are |
| `Rules.StorableExactly` | internal/routetypes/parser.go:308-364 | A policy matches exactly the packets its service admits, if and only if the written ports survive the cut to 16 bits |
| `Rules.WrappedPortOpensEverything` | internal/routetypes/parser.go:345-349 | Ports that are multiples of 65536 are stored as 0, so the policy matches every port of its protocol |
| `Rules.PolicyFlags` | internal/routetypes/policy.go:11-20 | Or-ing the restriction into a policy keeps the four kinds apart, and never yields the stop marker |
| `Prefixes.LookupIsLongest` | internal/router/xdp.c:533-542 | The probe from /32 down finds a key exactly when it covers the address and no covering key is longer, so the longest match is unique |
| `Prefixes.Lookup` | internal/router/xdp.c:533-542 | What the lookup returns covers the address and is longest; if it returns nothing, no key covers it |
| `Prefixes.CoversExactly` | internal/router/xdp.c:533-542 | A key covers exactly the block of addresses from its own: as many as two to the power of the bits its prefix leaves free |
| `Prefixes.CanonicalExactly` | internal/routetypes/parser.go:228-243 | A key is canonical exactly when its length is at most 32 and its address a multiple of its block |
| `Prefixes.KeyStringInjective` | internal/routetypes/key.go:42-44 | Different prefixes are filed under different names while rules are collected |
| `Compiler.RuleCompiler.ParseRules` | internal/routetypes/parser.go:55-153 | The three loops, the padding and the cache return exactly the fresh compilation of the sorted lists, cached or not, and the cache holds fresh compilations only, of lists without errors |
| `Compiler.RuleCompiler.FileRules` | internal/routetypes/parser.go:71-90 | One list of rules extends the buckets in order and reports the unreadable rules in order |
| `Compiler.RuleCompiler.FileRule` | internal/routetypes/parser.go:79-88 | Filing one rule through the index of names gives the buckets of the rules so far with this one last |
| `Compiler.RuleCompiler.PadAll` | internal/routetypes/parser.go:132-144 | Every bucket is padded to 128 slots, or the loop stops if and only if one has more than 128 policies |
| `Compiler.CompileIgnoresOrder` | internal/routetypes/parser.go:39-43 | Reordering the three lists changes neither the routes nor the errors nor their order |
| `Meaning.AcceptedExactly` | internal/routetypes/parser.go:246-259 | Lists are accepted without error if and only if every text in them reads and every bucket fits; too full a bucket empties the result and adds its own error |
| `Meaning.ErrorMembers` | internal/routetypes/parser.go:71-130 | An error is reported exactly when some text of the list concerned gives it |
| `Compiler.AppendRule` | internal/routetypes/parser.go:79-88 | One more rule adds its prefix at the end unless it is there, and its policies at the end of its own bucket only |
| `Compiler.BucketHasNoStop` | internal/routetypes/parser.go:183-222 | No compiled policy reads as the end of a bucket |
| `Filter.XdpMaps.Conntrack` | internal/router/xdp.c:482-605 | The verdict is what the tables mean for the packet, and the only change is the time of the deciding device, when a bucket was found and the session has not lapsed |
| `Router.PacketTouches` | internal/router/xdp.c:485-552 | A packet of any protocol is activity of the device at its end, the sender before the receiver, exactly when the owner has an account, a route covers the other end and the device has not been idle for the timeout; then that device was last seen now, and in every other case nothing changes |
| `Filter.XdpMaps.Decide` | internal/router/xdp.c:554-604 | The loop with its early exits passes exactly when the bucket ends before slot 128, something in it matches, nothing that matches denies, and a matching mfa policy finds a live session |
| `Filter.Blocked` | internal/router/xdp.c:574-600 | A matching deny, or a matching mfa without a session, settles the bucket wherever it stands |
| `Filter.BucketIsASet` | internal/router/xdp.c:554-604 | Buckets with the same policies decide alike, whatever their order and repetition |
| `Filter.DirectionDoesNotMatter` | internal/router/xdp.c:485-503 | When one end is a device, a packet and its answer are decided alike and record the same activity |
| `Router.StepAgrees` | internal/router/bpf.go:295-711 | Every call keeps the index from users to addresses in agreement with the device table, both ways, the index from addresses naming the owner, and an account for every owner |
| `Router.StepAgreesExactly` | internal/router/wireguard.go:195-240 | From an agreeing state a call keeps the agreement if and only if it is made in the owner's name: authorising a device for another user, or rekeying an address that is no device of the named user, parts the indexes |
| `Router.RunAgrees` | internal/router/wireguard.go:162-325 | The agreement holds after every run of calls made in the name of the device's owner |
| `Router.LockEndsSessions` | internal/router/bpf.go:295-314 | Setting the lock zeroes every session of the user, changes no other device, and sets the lock |
| `Router.RemoveUserRemoves` | internal/router/bpf.go:514-541 | Removing a user leaves no account, no routes and exactly the devices of the others |
| `Router.PeerStepAgrees` | internal/router/wireguard.go:162-325 | Adding, removing and rekeying a peer keep both indexes in agreement with the device table |
| `Removal.RemovedUserIsDropped` | internal/router/bpf.go:514-541 | After a user is removed, an address the user held stays out of the device table, and nothing to or from it passes, in every later run in which it is not given to a new peer |
| `Removal.AccountExactly` | internal/router/bpf.go:295-374 | Without an account and with no removal, a run ends with the account if and only if it added the user, set the lock of the account, or refreshed the configuration with the user in the store |
| `Removal.RemovedUserHasNoDevice` | internal/router/bpf.go:268-293 | A removed user has a device again, at any address, only after one of these calls |
| `Removal.LockRecreatesAccount` | internal/router/bpf.go:295-314 | Setting the lock of a removed user brings the account back; after a refresh and a new peer the tables hold the account, the routes and the device |
| `Removal.LockLetsPacketsPass` | internal/router/xdp.c:482-604 | With one allow rule that covers a destination, every packet from that peer to it passes, although the user was never added again |
| `Router.ControlAndDataPlaneAgree` | internal/router/bpf.go:207-242 | For every entry, lock, clock and minutes, the filter honours an mfa policy exactly when the control plane calls the device authorised and the entry names this node |
| `Router.MinutesAreNotTheSentinel` | internal/router/bpf.go:574-586 | A whole number of minutes, however large, never wraps to the value that disables the timeout |
| `Router.MinutesExactly` | internal/router/bpf.go:574-623 | A negative setting disables; otherwise timeout and expiry are the plain sums of nanoseconds as long as these fit 64 bits, and congruent to them beyond |
| `Router.LifetimeExactly` | internal/router/bpf.go:617-623 | A grant whose end fits the clock is good exactly until its start plus its lifetime, or for ever for a negative one |
| `Router.Firewall.AddUser` | internal/router/bpf.go:350-374 | The new state is the AddUser step, agreement is kept, and it fails exactly when the account exists |
| `Router.Firewall.XdpAddRoute` | internal/router/bpf.go:317-336 | The inner map holds the compiled table of the lists, whatever the cache held |
| `Router.Firewall.SetSingleUserMap` | internal/router/bpf.go:376-404 | The user's routes are replaced by the compiled table; nothing changes if a map exists that the program does not know |
| `Router.Firewall.RefreshUserAcls` | internal/router/bpf.go:589-599 | The new state is the RefreshUserAcls step and agreement is kept |
| `Router.Firewall.RemoveUser` | internal/router/bpf.go:514-541 | The account, the routes and, through the loop over peers, every device of the user are removed; it fails exactly when there is no account |
| `Router.Firewall.AddPeer` | internal/router/wireguard.go:280-325 | The device is added unauthorised and indexed both ways; it fails exactly when the address is taken or there is no account |
| `Router.Firewall.DeauthenticateUser` | internal/router/bpf.go:300-305 | The loop in setting a lock goes on after a missing entry: it ends the sessions of all addresses filed under the user and touches nothing else |
| `Router.Firewall.DeauthenticateAllDevices` | internal/router/bpf.go:672-684 | The loop stops at the first missing entry: it ends the sessions of the addresses it reached and touches nothing else; it reaches all, and succeeds, exactly when all are in the table |
| `Router.FiledIsKnown` | internal/router/bpf.go:672-684 | While the indexes agree, that loop cannot stop half way |
| `Router.Firewall.RefreshConfiguration` | internal/router/bpf.go:544-565 | The timeout, and the account, lock and routes of every stored user, are as read; no other account or table changes, and the indexes stay in agreement |
| `Router.Firewall.BulkCreateUserMaps` | internal/router/bpf.go:439-512 | The two loops, with the maps of known users refilled on the way, leave every listed user the compiled table and the stored lock, and every other user as before |
| `Router.Firewall.SetLockAccount` | internal/router/bpf.go:295-314 | Sessions are ended and the lock is set; agreement is kept |
| `Sessions.SessionSafety` | internal/router/xdp.c:528-600 | In every run from an empty table under one clock: a packet that passes a bucket with a matching mfa policy has a latest grant, not ended since by deauthentication, lock or removal, not outlived, no recorded gap as long as the timeout, on this node, of an unlocked account |
| `Sessions.LiveSessionWasGranted` | internal/router/bpf.go:602-711 | The same for the session test alone: every live session was granted and is still in force |
| `Sessions.LiveExactly` | internal/router/xdp.c:528-595 | After any run, a device passes the session test if and only if it is on this node, its account is unlocked, and history holds a grant not yet expired with activity within the timeout |
| `Sessions.FirstLogin` | internal/router/bpf.go:602-628 | On a node that has just started, a user added, given a device and authorised has a live session until the lifetime or the timeout is over |
| `Sessions.EntryStep` | internal/router/bpf.go:602-711 | What one call does to the session in an entry: granted, ended, kept, or none before and none after |
| `Sessions.EntryIsHistory` | internal/router/bpf.go:602-711 | Expiry and last activity in the table are what the history of events alone says |
| `Sessions.SessionIsInForce` | internal/router/bpf.go:664-711 | The session that history yields began with a grant, and no later event granted again or ended it |
| `Sessions.ActiveStep` | internal/router/xdp.c:528-552 | Every packet that recorded activity came within the timeout in force of the activity before |
| `Sessions.ExpiryHolds` | internal/router/bpf.go:617-623 | An entry not expired is within its lifetime in unbounded arithmetic, but for the last instant of the clock when the lifetime ends there |
| `Sessions.MfaNeedsLiveSession` | internal/router/xdp.c:585-600 | A packet that passes a bucket with a matching mfa policy has a live session |
| `Cluster.DeviceChanges` | internal/router/statemachine.go:68-175 | Handling one change, with its early returns, leaves exactly the composed steps |
| `Cluster.ModificationExactly` | internal/router/statemachine.go:88-168 | After a modification a present device has the granted session if and only if it became authorised, within the lockout, on the same node; otherwise none if the record is not authorised, an authorised device is over the lockout, or its endpoint changed and it failed the challenge; otherwise the one it had. It has the record's node and key, and no other device is touched |
| `Cluster.CreationExactly` | internal/router/statemachine.go:71-86 | A created device of a known user has an entry without a session, with its node, owner and key; deleting it leaves the table as before |
| `Cluster.UnknownUserStops` | internal/router/statemachine.go:89-96 | A rekeyed device of a user the node does not know stops the handler before anything is changed |
| `Cluster.Modify` | internal/router/statemachine.go:88-168 | The modification branch, in order: replace the key, challenge, deauthenticate, move, authorise; once a call fails the rest would have changed nothing |
| `Cluster.NodeIsBounded` | internal/router/statemachine.go:68-175 | A node that has handled a prefix of the device's log, mixed with anything else, removal of the device or its owner included, has an entry only if the log leaves a record, with its node, and a session only if that record is authorised |
| `Cluster.NodeMirrorsLog` | internal/router/statemachine.go:68-175 | Such a node has the entry exactly when the device was created while its user had an account and neither has been removed since, under the record's owner, and keeps both indexes in agreement |
| `Cluster.AtMostOneNode` | internal/router/xdp.c:593-595 | Of two nodes with different ids that have come to the same latest record, by the same log or one from a later start, whatever else each did, at most one has a live session for the device |
| `Cluster.AtMostOneNodePasses` | internal/router/xdp.c:482-604 | So at most one of them lets any packet of the device pass a bucket in which an mfa policy matches |
| `Cluster.ModifiedKeepsBound` | internal/router/statemachine.go:88-168 | Through all five calls of a modification, present or failing, the entry ends with the new node and without a session the record does not have |
| `Cluster.ModifiedKeepsMirror` | internal/router/statemachine.go:88-168 | A modification neither adds nor removes the entry nor changes its owner, and keeps both indexes in agreement |
| `Accounts.UserChanges` | internal/router/statemachine.go:192-235 | Handling one change of a user leaves exactly the composed steps, and keeps agreement |
| `Accounts.ModificationEndsSessions` | internal/router/statemachine.go:208-231 | A lock now or before, a new mfa secret or type, mfa not enforced or not set up ends every session of the user and no other; any other modification changes nothing; and the account's lock is then the record's |
| `Accounts.CreationExactly` | internal/router/statemachine.go:193-206 | A created user has an unlocked account and the compiled routes of the rules that apply; deleting it leaves neither |
| `Accounts.NodeMirrorsAccount` | internal/router/statemachine.go:192-235 | A node that has handled a prefix of the user's log, mixed with refreshes that read the store any number of changes ahead and with any call that does not write the account, has the account exactly when the log leaves a record, locked exactly when the record is, as soon as it has handled what its latest refresh had read; before that, handling the rest brings it there |
| `Accounts.ReplayFromEnd` | internal/router/bpf.go:468-476 | Handling changes that a refresh had already read ends where the refresh did |
| `Accounts.LockedOrDeletedHasNoSession` | internal/router/xdp.c:505-600 | On such a node a locked record gives no device of the user a live session, and where there is no record no packet passes on behalf of a device of the user |
| `SafeUpdate.Linearizable` | internal/data/init.go:455-525 | In every interleaving of clients, puts, deletes and writes of other keys, each client commit is its function of the value just before it in the key's history; a client succeeds exactly when it committed, and commits once; into a missing key only if it may create |
| `SafeUpdate.FailuresAreForeignCommits` | internal/data/init.go:495-524 | A client's failed attempts never exceed the commits of others between its first and its last read |
| `SafeUpdate.LoneClient` | internal/data/init.go:463-523 | With no one else between its steps, a client commits if and only if the key exists or it may create it, and its function has a value; that value is then stored |
| `SafeUpdate.NextKeeps` | internal/data/init.go:479-523 | Every single step keeps the history consistent, deletion and creation anew included: a revision only grows, so an unchanged revision is an unchanged value |
| `SafeUpdate.StoredKey.DoSafeUpdate` | internal/data/init.go:455-525 | The loop ends if others write finitely often, whatever they write between its calls; it fails no more often than they commit; on success its one commit is the latest and holds the function of the value just before; on failure it wrote nothing and the cause is true of the store, where a caller that may create is refused a missing key only after a foreign deletion; alone, it commits exactly when the key exists or may be created and the function has a value |
| `SafeUpdate.StoredKey.Attempt` | internal/data/init.go:508-523 | One turn: either the commit, or the present entry read back with a commit of others in between |
| `Attempts.AttemptsAreBounded` | internal/users/user.go:104-136 | In every interleaving of calls, resets and locks, at most lockout - 1 calls counted and read between the same two resets to 0 reach the authenticator, locks in between included, and the counter never exceeds lockout + 1 |
| `Attempts.NextKeeps` | internal/data/user.go:28-98 | Every step keeps the counter bounded and the calls of one epoch apart by the value they counted to |
| `Attempts.FinishedExactly` | internal/users/user.go:104-152 | In every run a call succeeds if and only if it read its details, unlocked, of the right type and with the counter below the lockout, then the authenticator agreed, and then the account was still unlocked; it reaches the authenticator if and only if the first of these holds |
| `Attempts.AuthorisingFinishes` | internal/data/devices.go:99-141 | Authorising an unlocked account ends the call in success, sets the counter to 0 and begins a new epoch |
| `Attempts.CounterExactly` | internal/data/user.go:28-55 | Between settings and successes the counter is its start plus the calls counted, up to one above the lockout |
| `Attempts.LockHolds` | pkg/control/server/devices.go:78-85 | After the administrator's lock no call is admitted until a reset |
| `Attempts.CallAlone` | internal/users/user.go:106-122 | A call alone reaches the authenticator exactly when the counter was at least two below the lockout |
| `Tokens.UsesAreConserved` | internal/data/registration.go:78-109 | In every interleaving on a token with n uses, stored uses and committed decrements make up n and at least one use is left while it is stored; after the deletion nothing is committed |
| `Tokens.SequentialUses` | internal/data/registration.go:78-109 | One call after another, exactly n calls succeed |
| `Tokens.FinaliseRegistration` | internal/data/registration.go:78-109 | A call decrements the stored uses, or deletes the token on the last one, or fails when there is none |
| `Tokens.UsesExceededExactly` | internal/data/registration.go:78-109 | In every interleaving, no more calls succeed than the token had uses, if and only if no call reads a single use that another call has already taken and not yet deleted |
| `Tokens.SharedExactly` | internal/data/registration.go:90-103 | Every decrement in the history has its own caller, and the calls that take the last use stay at most one exactly when no step reads a use already taken |
| `Tokens.LastUseIsShared` | internal/data/registration.go:90-103 | Any number of waiting callers can all take the last use |
| `Allocator.GetNextIP` | internal/data/dhcp.go:26-90 | The loop ends within one round and returns an address that was free when tried, not the network address, not the server, and in the subnet unless the server has its last address, or reports full when every address was tried and refused |
| `Allocator.StartOnRing` | internal/data/dhcp.go:36-49 | The scan begins at the address chosen at random, or the next one if that is the server's |
| `Allocator.StaysOnRing` | internal/data/dhcp.go:45-86 | The scan only ever tries addresses above the network address other than the server's, and the one beyond when the server has the last |
| `Allocator.FindsWithinOneRound` | internal/data/dhcp.go:47-86 | If an address stays free the scan finds one within one round, whatever else comes and goes |
| `Allocator.FullSawEverything` | internal/data/dhcp.go:82-84 | Full is reported only after every address there is to try was tried and refused |
| `Allocator.EndsExactly` | internal/data/dhcp.go:77-86 | On a store that does not change the scan ends if and only if an address is free or it began at the first host |
| `Allocator.FindsFirstFree` | internal/data/dhcp.go:34-75 | The address found is the first free one on the way round; it is the broadcast address exactly when that is free, not the server's, and every host from the start up is taken |
| `Allocator.StaysInsideExactly` | internal/data/dhcp.go:49-51 | The scan returns only addresses of the subnet, from every start, if and only if the server is not on its last address |
| `Reservations.NoDoubleAllocation` | internal/data/devices.go:234-330 | However holds, lapses, commits and the three steps of each deletion interleave, no two devices ever share an address and devices and references always match, if every commit comes before its own hold lapses and every deletion finds the reference as it read it or gone |
| `Reservations.HoldLasts` | internal/data/dhcp.go:53-75 | A held address stays that request's until the hold lapses, and no step in between holds it for another |
| `Reservations.NothingToDelete` | internal/data/devices.go:297-318 | A deletion that finds no reference, or then no record, ends without deleting anything |
| `Reservations.NextKeeps` | internal/data/dhcp.go:53-75 | A commit in time is clear, and a step with a commit in time and a current deletion keeps devices and references one to one, and held addresses free of both |
| `Reservations.MatchedExactly` | internal/data/devices.go:241-330 | In every run from a store whose devices and references match, they match at every moment if and only if every commit finds its address free or the same user's, and every deletion finds the reference as it read it or gone |
| `Reservations.OneEachExactly` | internal/data/devices.go:241-263 | Whatever deletions do, two devices never share an address if and only if no commit finds another user's record for its address; the reference that the hold looks at is not enough |
| `Reservations.LateCommitShares` | internal/data/devices.go:241-263 | One late commit is enough for two users to share any address |
| `Reservations.StaleDeletionShares` | internal/data/devices.go:295-330 | Two deletions of one device are enough for two later users to share its address, although every commit comes in time and finds the address free |
| `Groups.GroupStore.SetGroup` | internal/data/groups.go:16-127 | A new or replaced group leaves groups and memberships in agreement, every other group untouched, and the other groups of each user in their order; refused exactly when the group exists and may not be overwritten |
| `Groups.GroupStore.RemoveGroup` | internal/data/groups.go:153-204 | Removing a group removes it from every membership and nothing else, keeps agreement, and cannot fail half way; refused for the default group |
| `Groups.GroupStore.Differences` | internal/data/groups.go:40-62 | Added are the new members that were not old, removed the old that are not new, with repeated names and overlaps |
| `Groups.GroupStore.RemoveMembers` | internal/data/groups.go:95-120 | The loop removes the group from every listed record, and reports an error exactly when one has no record |
| `Groups.SettingAgrees` | internal/data/groups.go:16-127 | Records updated as SetGroup does agree again, for all groups and users |
| `Groups.WithoutKeepsOrder` | internal/data/groups.go:108-110 | Taking a group out of a record leaves every other group as often and in the order it was |
| `EffectiveAcls.GetEffectiveAcl` | internal/data/acls.go:87-206 | Each list is sorted, without duplicates, and has exactly the rules of the default policy, the user's, the groups', the DNS servers' and the server's own |
| `EffectiveAcls.EffectiveIsUnique` | internal/data/acls.go:194-205 | Two stores with the same rules for a user give the identical lists, whatever the order of groups, rules and map walks |
| `EffectiveAcls.Insert` | internal/data/acls.go:81-85 | The set gains exactly the given values |
| `Wire.UnpackPackedEntry` | internal/router/fwentry.go:26-55 | A device entry unpacks to itself from its 48 bytes |
| `Wire.PackUnpackedEntry` | internal/router/fwentry.go:26-55 | Any 48 bytes are the packing of the entry they unpack to |
| `Wire.EntryLayout` | internal/router/xdp.c:305-317 | The 48 bytes are laid out as the kernel's record: expiry, last packet, hash, padding and node, each least significant byte first |
| `Wire.UnpackPackedPolicy` | internal/routetypes/policy.go:46-69 | A policy unpacks to itself from its 8 bytes, whatever follows them |
| `Wire.PackUnpackedPolicy` | internal/routetypes/policy.go:46-69 | The first 8 bytes of any longer input are the packing of the policy read from it |
| `Wire.PolicyLayout` | internal/router/xdp.c:348-354 | The 8 bytes are laid out as the kernel's record: type, protocol, lower and upper port, least significant byte first |
| `Wire.KeyRoundTrip` | internal/routetypes/key.go:22-40 | Keys and 8-byte strings are packed and unpacked both ways without loss |
| `Wire.KeyLayout` | internal/router/xdp.c:342-346 | The prefix length comes first, least significant byte first, and then the address as it stands in a packet |
| `Wire.ParseCreated` | internal/router/debug.go:48-148 | From every test packet the filter reads back addresses and protocol, and for TCP and UDP, once in host order, the very ports it was made with |
| `Wire.ParseAnyHeader` | internal/router/xdp.c:392-480 | Behind an IPv4 header of any length and contents the addresses, the protocol and, for TCP and UDP, both ports are read; exactly the packets too short for the protocol's own header are refused |
| `Wire.AddressIs` | internal/router/xdp.c:474-476 | An address is the number its four octets write, the first octet most significant |
| `Wire.RefusedHeaders` | internal/router/xdp.c:400-425 | Less than a header, another version, or a header longer than the packet is refused |
| `Wire.Firewall` | internal/router/xdp.c:607-622 | Every packet is decided: one that does not parse is dropped and changes nothing, any other gets the verdict of its parsed header; no byte outside it is read |
| `Wire.KeyNamesUser` | internal/data/user.go:286-297 | A device key names its user back if and only if neither the user nor the address has a dash |
| `Wire.PrefixPicksUser` | internal/data/devices.go:422-440 | For a dash-free user the prefix scan picks exactly that user's devices, and those of names that begin with it and a dash |

## Left out

- Meaning.CompilationPreservesMeaning: one direction for ports, under storable ports; the exact condition is proved for each policy (`Rules.StorableExactly`), since an unstorable port can hide behind another rule of its bucket.
- Allocator.GetNextIP: takes as given that an address stays free or that the start is the first host, since the loop has no other end (`Allocator.EndsExactly`); prefix lengths 1 to 30 only, and the "subnet is too small" error is not modelled.
- Cluster.NodeIsBounded: changes arrive in log order; a failed peer update of WireGuard is not modelled. Handling one change is one step, while the program takes its lock call by call and may wait for the challenge in between, so packets and other calls that fall inside are not modelled.
- Cluster.NodeMirrorsLog: the public key of a device changes only while the node has its entry or does not know the user; otherwise the indexes part (`Router.StepAgreesExactly`). `Cluster.NodeIsBounded` has no such premise.
- Accounts.NodeMirrorsAccount: changes arrive in log order, accounts are created unlocked, as `CreateUserDataAccount` creates them, and handling one change is one step.
- Router.Firewall.BulkCreateUserMaps: the batch insert is taken to put every new map in the table. If the kernel refuses it, the accounts are written all the same and the maps of known users are refilled, but the program then holds maps that are not in the table.
- Sessions.SessionSafety: one clock that does not go back stands for the two the program reads.
- EndToEnd.VerdictIsHistory: the ports of the deciding lists are storable, as in `Meaning.CompiledVerdict`.
- Attempts.AttemptsAreBounded: the lockout is fixed during a run, and the lock of the account is given with each step.
- Tokens.FinaliseRegistration: the method is one call with no other beside it; interleaved calls are the state machine of `Tokens.UsesAreConserved`. Adding a token again is not modelled.
- Reservations.NoDoubleAllocation: device references are kept, and deletions asked for, by address only; public keys are fresh.
- Router.Firewall.ReplacePeer: fails where the program would write into a missing map and panic.
- Router.Firewall.AddPeer: the WireGuard device itself is assumed to accept every change, here and in the other peer calls.
- Compiler.RuleCompiler.ParseRules: the three identical loops are one method called three times; that sorting reorders the caller's own slices is not captured, nor is `NumPolicies`; the cache key is the three sorted lists and not their SHA-1 hash.
- Wire.ParseCreated: the printed form of a decision is not modelled, only the bytes.
- Addresses: net.ParseIP, net.ParseCIDR and DNS are one parameter that gives an address text one canonical IPv4 prefix or none. Names with several addresses, where one rule is appended once for each key and the keys share their policies, are not modelled; nor is IPv6.
- Text: white space is that of Latin-1 and lower case that of ASCII.
- Identity: a user is the name itself where the tables hold its SHA-1 hash.
- Kernel: the trie, map sizes, map-in-map file descriptors, clearing an inner map and loading the program; a lookup is its specification.
- Storage: JSON, leases beyond "a hold may lapse", transport errors of etcd, and mutate functions that read other keys.
- `DeleteDevices`, `UpdateDevicePublicKey`, `SetUserGroupMembership`, and the reset of memberships in `CreateUserDataAccount`, which keep only part of an index.
- `AclsToRoutes`, the admin lockout, HTTP handlers, authenticators, websocket challenges, netlink, iptables, clustering calls, migration and the command line: plumbing, or members of the same shape as those here.
