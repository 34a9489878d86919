# Drone fuzz campaign and probe search, modelled in Dafny

This project models the deterministic core of the drone-response fuzzing
repository in three groups.

**The fuzz campaign** (`ClusteringFT/Fuzz`):
- `Fuzz_Test` turns lists of flight modes, throttle indices, onboard states and
  geofence actions into a set of test tuples. The throttle indices are remapped
  through a per-mode table. It also derives the kind string `fuzz_type`, the
  tuple positions and the command template that a tuple is written into.
- `Fuzz_Testor` runs the campaign. On each drone status report it picks an
  untested combination, dispatches it at most once per mission and records it
  as executed. It restarts missions on success or on a timeout.

**The truth-table / fault-tree pipeline** (`ClusteringFT`):
- building the 0/1 truth table over a feature combination, and rejecting
  meaningless rows;
- translating a row's feature names into fuzz arguments;
- the ordered rule chain that labels a probe mission anomalous, and the
  relabelling of throttle features;
- rewriting the minimised formula into a boolean expression, and extracting
  its minimal cut sets;
- expanding the `GFACT_<action>` features;
- ordering the ranked cluster features, and drawing distinct feature
  combinations from them.

**The genetic search** (`GenAlgo`):
- tournament selection of parents;
- single-point crossover that keeps the geofence block (GF, GFPRED, GFACT) with
  each child's own parent;
- column mutation that keeps the geofence columns consistent;
- the fuzz arguments `run_probe` builds for each probe;
- the record `packager` makes of each probe.

The modules are:
- `Wrappers` (`Option`, `Result`);
- `Strings` (the Python `str` operations the code relies on, with Python's semantics);
- `FuzzEntities`, `FuzzTestor`, `AnomalyRules`, `Pipeline`, `FaultTree`, `Clustering`;
- `Chromosome` (rows and the crossover), `Parents`, `Mutation`, `Genetic`.

Python exceptions are modelled as `Err` values of a `Result`. Random draws
(`random.choice`, `random.sample`, `random.randint`, `set.pop`) are parameters.
A data-frame row is a `seq<Cell>` over the six probe columns. The runner's and
the truth table's mutable state are classes. `mutate` works in place on a
two-dimensional array copy of the sampled rows.

## Model

| member | source | states |
|---|---|---|
| FuzzEntities.ThrottleRow | ClusteringFT/Fuzz/entities.py:103-104 | The table row a mode uses has five values: STABILIZED's own row, and the POSCTL row for every other mode. |
| FuzzEntities.PyIndex | ClusteringFT/Fuzz/entities.py:106 | Python list indexing succeeds exactly for -len <= i < len, and a non-negative index reads that element. |
| FuzzEntities.RowsAreInjective | ClusteringFT/Fuzz/entities.py:60-64 | Two throttle indices in 1..5 with the same table value are equal. |
| FuzzEntities.GeoKindFlag | ClusteringFT/Fuzz/entities.py:68-82 | `"geo" in fuzz_type` holds exactly when geofence actions are given. |
| FuzzEntities.StateKindFlag | ClusteringFT/Fuzz/entities.py:68-82 | `"state" in fuzz_type` holds exactly when no geofence action is given. |
| FuzzEntities.ModeFlag | ClusteringFT/Fuzz/entities.py:71-79 | Both `"mode"` and `"_mode"` occur in the kind exactly when modes are given. |
| FuzzEntities.ThrottleFlag | ClusteringFT/Fuzz/entities.py:73-81 | Both `"throttle"` and `"_throttle"` occur in the kind exactly when throttle indices are given. |
| FuzzEntities.FuzzTypeFlags | ClusteringFT/Fuzz/entities.py:68-82 | All six substring tests on the kind string, each as an if-and-only-if on the argument lists. |
| FuzzEntities.ProductSetMembership | ClusteringFT/Fuzz/entities.py:90 | A tuple is in `set(product(*lists))` iff it has one field per list, each from its list. |
| FuzzEntities.ProductSetCard | ClusteringFT/Fuzz/entities.py:90 | Over duplicate-free lists the product has as many tuples as the product of the list lengths. |
| FuzzEntities.ListIndex | ClusteringFT/Fuzz/entities.py:100-101 | `lists.index(l)` is the first position holding `l`, and is None exactly when `l` is absent. |
| FuzzEntities.ListPositions | ClusteringFT/Fuzz/entities.py:84-101 | The non-empty lists are modes, throttle, context in that order, and the mode and throttle positions found by `index` are 0 and the throttle position. |
| FuzzEntities.GenerateNeedsContext | ClusteringFT/Fuzz/entities.py:66-84 | Generation fails with the unbound-`variable_list` error exactly when neither geofence actions nor states are given. |
| FuzzEntities.GenerateWithoutThrottle | ClusteringFT/Fuzz/entities.py:84-90 | Without throttle indices the result is exactly the product of the non-empty lists. |
| FuzzEntities.GenerateWithThrottle | ClusteringFT/Fuzz/entities.py:98-112 | With throttle indices the result is the product with every tuple remapped. |
| FuzzEntities.RemapProductTuple | ClusteringFT/Fuzz/entities.py:102-110 | A product tuple's throttle field, an index in 1..5, is replaced by `MODE_TO_THROTTLE[mode][t-1]`, with POSCTL for a missing or unknown mode. The other fields stay. |
| FuzzEntities.GenerateShape | ClusteringFT/Fuzz/entities.py:84-112 | A tuple is generated iff it has the campaign's shape: mode from modes, throttle value from the table row of its mode, context last (geofence over states). |
| FuzzEntities.RemappedInCampaign | ClusteringFT/Fuzz/entities.py:99-112 | Every remapped tuple has the campaign's shape. |
| FuzzEntities.InCampaignRemapped | ClusteringFT/Fuzz/entities.py:99-112 | Every tuple of the campaign's shape is produced by the remapping. |
| FuzzEntities.SwapInjective | ClusteringFT/Fuzz/entities.py:105-109 | Replacing throttle indices 1..5 by table values never merges two tuples. |
| FuzzEntities.RemapInjective | ClusteringFT/Fuzz/entities.py:102-110 | Remapping is injective on the product. |
| FuzzEntities.RemappedCard | ClusteringFT/Fuzz/entities.py:99-112 | Remapping any set of product tuples keeps its size. |
| FuzzEntities.GenerateSize | ClusteringFT/Fuzz/entities.py:84-112 | Over duplicate-free lists the campaign holds one tuple per choice of one field from each non-empty list. |
| FuzzEntities.GenerateRejectsBadThrottle | ClusteringFT/Fuzz/entities.py:105-106 | A throttle entry that is not an integer, or indexes outside the table, makes generation raise. |
| FuzzEntities.SingleGeofenceCombination | ClusteringFT/Fuzz/entities.py:98-112 | One mode, one throttle index and one action give exactly the tuple (mode, table value, action). |
| FuzzEntities.RtlGeofenceExample | ClusteringFT/Fuzz/BackupFuzzTestor.py:450-454 | modes AUTO.RTL, geofence 1, throttle 5 give exactly ('AUTO.RTL', 615, 1): AUTO.RTL falls back to the POSCTL row. |
| FuzzEntities.RtlGeofenceKind | ClusteringFT/Fuzz/BackupFuzzTestor.py:450-454 | That test's kind string is "geo_mode_throttle_geo". |
| FuzzEntities.WithoutStatesMembers | ClusteringFT/Fuzz/entities.py:130 | The reduced tuple holds exactly the tuple's fields that are not states. |
| FuzzEntities.WithoutStatesInOrder | ClusteringFT/Fuzz/entities.py:130 | The reduced tuple reads the tuple's non-state fields at increasing positions, each of them exactly once, so the kept fields keep their order. |
| FuzzEntities.WithoutTrailingState | ClusteringFT/Fuzz/entities.py:130 | A tuple with a state only in its last field loses exactly that field. |
| FuzzEntities.StateCampaignPairs | ClusteringFT/Fuzz/entities.py:116-133 | In a state campaign whose modes are not states, removing the states drops exactly the last field of every tuple. |
| FuzzEntities.CommandIndicesMatchFields | ClusteringFT/Fuzz/entities.py:136-145 | The recorded positions are where the generator put the fields: mode at 0 if present, then throttle, then geofence last. |
| FuzzEntities.SetupCommandStructure | ClusteringFT/Fuzz/entities.py:136-145 | The counting loop of `setup_command_structure` records those positions. |
| FuzzEntities.NewTemplate | ClusteringFT/Fuzz/entities.py:147-155 | One fresh, distinct dictionary per chosen service, with its initial entries. |
| FuzzEntities.CreateCommandTemplate | ClusteringFT/Fuzz/entities.py:147-155 | The template has `set_param` (GF_ACTION) iff "geo", `set_mode` iff "_mode", and `set_throttle` iff "_throttle" is in the kind. Every placeholder is None. |
| FuzzEntities.IndicesHaveCommands | ClusteringFT/Fuzz/entities.py:136-155 | A position is recorded exactly for each service the template holds, in ascending order. |
| FuzzEntities.SetupFacts | ClusteringFT/Fuzz/entities.py:45-51 | What `__post_init__` sets up: kind, combinations and positions of the test, and positions matching the template. |
| FuzzEntities.FuzzTest.constructor | ClusteringFT/Fuzz/entities.py:45-52 | `__post_init__`: the combinations are the generated ones, and the object's invariant holds. |
| FuzzEntities.FuzzTest.PopulateCommand | ClusteringFT/Fuzz/entities.py:157-167 | Returns the template itself (shallow copy). Each dictionary gets the tuple field at its recorded position, and the geofence one is wrapped in a `ParamValue`. It raises exactly when a position lies outside the tuple. |
| FuzzEntities.FuzzTest.WriteEntry | ClusteringFT/Fuzz/entities.py:160-166 | One assignment changes one entry of one shared dictionary and no other dictionary. |
| FuzzTestor.LoadMsg | ClusteringFT/Fuzz/BackupFuzzTestor.py:239-245 | "success" for a finished mission, the state name for a state report, and an error for anything else. |
| FuzzTestor.IndexOfMembership | ClusteringFT/Fuzz/BackupFuzzTestor.py:125-141 | A prefix is filed under state `s` exactly when prefix + (s,) is an executed tuple. |
| FuzzTestor.IndexOfAdd | ClusteringFT/Fuzz/BackupFuzzTestor.py:362-364 | Executing one more tuple files its prefix under its state and changes nothing else. |
| FuzzTestor.ProcessExecuted | ClusteringFT/Fuzz/BackupFuzzTestor.py:125-141 | When the tuples unpack as the kind says, the result is the (prefix, state) index of the executed set. |
| FuzzTestor.PairWithStateInCampaign | ClusteringFT/Fuzz/entities.py:116-133 | A (mode, throttle) part of a state campaign completed with any of its states is a combination. |
| FuzzTestor.CleanPairsComplete | ClusteringFT/Fuzz/BackupFuzzTestor.py:284 | Every reduced tuple of a clean state campaign completes with every state. |
| FuzzTestor.DispatchKeepsLog | ClusteringFT/Fuzz/BackupFuzzTestor.py:359-369 | Dispatching an available test records a tuple that was not executed, and keeps the executed set, the index and the dispatch log in step. |
| FuzzTestor.DispatchKeepsValid | ClusteringFT/Fuzz/BackupFuzzTestor.py:359-369 | Dispatching keeps the whole runner invariant. |
| FuzzTestor.AdoptValid | ClusteringFT/Fuzz/BackupFuzzTestor.py:271-284 | The runner's copies of a generated test describe it. |
| FuzzTestor.StartValid | ClusteringFT/Fuzz/BackupFuzzTestor.py:285-288 | A test starts from the loaded tuples, with nothing dispatched. |
| FuzzTestor.FuzzTestor.constructor | ClusteringFT/Fuzz/BackupFuzzTestor.py:62-93 | A fresh runner: nothing executed or queued, every flag clear, the watchdog alive. |
| FuzzTestor.FuzzTestor.RunTest | ClusteringFT/Fuzz/BackupFuzzTestor.py:253-289 | Adopts the test's kind and combinations, loads the executed set, and queues exactly one mission. It fails exactly when a state campaign's file does not unpack. |
| FuzzTestor.FuzzTestor.LoadExecutedTests | ClusteringFT/Fuzz/BackupFuzzTestor.py:100-112 | The executed set becomes the file's tuples. A state campaign's index is their (prefix, state) index. |
| FuzzTestor.FuzzTestor.SelectFuzzTest | ClusteringFT/Fuzz/BackupFuzzTestor.py:291-301 | None exactly when nothing is available, otherwise an available test. Geofence: combinations minus executed. State: reduced tuples minus those tested in this state; None for an unknown state. |
| FuzzTestor.FuzzTestor.SelectedIsNew | ClusteringFT/Fuzz/BackupFuzzTestor.py:291-301 | A selected test never ran: in a geofence campaign it is not executed, in a state campaign test + (state,) is not. |
| FuzzTestor.FuzzTestor.GeofenceDone | ClusteringFT/Fuzz/BackupFuzzTestor.py:344-345 | In a geofence campaign started from its own combinations, nothing is available exactly when every combination is executed. |
| FuzzTestor.FuzzTestor.AdoptTest | ClusteringFT/Fuzz/BackupFuzzTestor.py:271-284 | The runner takes over the test's kind, combinations, states and reduced tuples. |
| FuzzTestor.FuzzTestor.LoadAndStart | ClusteringFT/Fuzz/BackupFuzzTestor.py:285-289 | The executed set becomes the file's tuples. The runner starts, queuing one mission, exactly when the campaign is geofence or the tuples unpack. |
| FuzzTestor.FuzzTestor.Start | ClusteringFT/Fuzz/BackupFuzzTestor.py:285-288 | The runner is running, with one more mission queued and nothing dispatched or recorded yet. |
| FuzzTestor.FuzzTestor.RecordSuccess | ClusteringFT/Fuzz/BackupFuzzTestor.py:329-335 | The recent test is appended as complete, the saved set becomes the executed set, one mission is queued and `message_sent` is cleared. |
| FuzzTestor.FuzzTestor.SaveRecord | ClusteringFT/Fuzz/BackupFuzzTestor.py:385-386 | One record of the recent test with its completion flag is appended, and the executed set is saved. |
| FuzzTestor.FuzzTestor.ClearMission | ClusteringFT/Fuzz/BackupFuzzTestor.py:387-390 | `mission_ready`, the timer and the abort flag are all cleared. |
| FuzzTestor.FuzzTestor.QueueNext | ClusteringFT/Fuzz/BackupFuzzTestor.py:208-209 | One more mission is queued and `message_sent` is cleared. |
| FuzzTestor.FuzzTestor.OnStatus | ClusteringFT/Fuzz/BackupFuzzTestor.py:315-369 | Ignored exactly when aborting, not ready or unreadable. At most one dispatch per mission: the test is available and not yet executed. A success that is not ignored is Completed when there is a recent test, and NoRecentTest otherwise. Completed records the recent test and queues one mission, leaving the executed set, the recent test, the per-state index and the shutdown flag. When nothing is left, the runner shuts down iff every combination ran. A state report leaves the timer, the records and the queue alone. |
| FuzzTestor.FuzzTestor.OnSuccess | ClusteringFT/Fuzz/BackupFuzzTestor.py:325-335 | The timer stops. With a recent test, it records it as complete, saves and queues one mission; without one, it raises. |
| FuzzTestor.FuzzTestor.OnState | ClusteringFT/Fuzz/BackupFuzzTestor.py:337-369 | Nothing changes once a message was sent. Otherwise it either dispatches a new test, filing it under the state only in a state campaign, or stays idle with the recent test and the index kept. It shuts down only when idle and executed equals the combinations. |
| FuzzTestor.FuzzTestor.Dispatch | ClusteringFT/Fuzz/BackupFuzzTestor.py:359-369 | Adds the recorded tuple, which was not executed, sets it as the recent test and sets `message_sent`. The per-state index changes only in a state campaign. |
| FuzzTestor.FuzzTestor.FileRecord | ClusteringFT/Fuzz/BackupFuzzTestor.py:361-368 | A state campaign files the test under the state and records test + (state,); a geofence campaign records the test. |
| FuzzTestor.FuzzTestor.CheckTimeout | ClusteringFT/Fuzz/BackupFuzzTestor.py:371-392 | Acts only when elapsed >= 74 and the timer is set. It then records the test as incomplete, clears the timer, abort and `message_sent`, and queues one mission, keeping the executed set. Without a recent test the watchdog dies with abort set and nothing else changes. On shutdown it only stops the watchdog. |
| FuzzTestor.FuzzTestor.RecordTimeout | ClusteringFT/Fuzz/BackupFuzzTestor.py:383-392 | The acting part of the timeout branch, with its whole new state. |
| FuzzTestor.FuzzTestor.OnMissionReady | ClusteringFT/Fuzz/BackupFuzzTestor.py:211-214 | Sets `mission_ready`; its frame is that one field, so nothing else changes. |
| FuzzTestor.FuzzTestor.PublishMission | ClusteringFT/Fuzz/BackupFuzzTestor.py:218-237 | A queued mission is published once ready: one fewer queued and the timer set. Otherwise nothing changes. |
| AnomalyRules.SecondPart | ClusteringFT/decisionTreeLogic.py:39 | `col.split('_')[1]` exists exactly when the name holds `_`. |
| AnomalyRules.ScanGfact | ClusteringFT/decisionTreeLogic.py:37-45 | The loop over the geofence-action columns computes the verdict of all of them, or raises on a name without `_`. |
| AnomalyRules.Classify | ClusteringFT/decisionTreeLogic.py:26-49 | The if/elif chain with its loop equals the first-matching-rule verdict. |
| AnomalyRules.DecisionTree | ClusteringFT/decisionTreeLogic.py:21-53 | The result is 0 or 1, and it is 1 exactly when the rule chain flags an anomaly. Errors are those of the chain. |
| AnomalyRules.LandRule | ClusteringFT/decisionTreeLogic.py:27-29 | AUTO.LAND without Takeoff is anomalous iff the final landing state is not true. |
| AnomalyRules.ManualRule | ClusteringFT/decisionTreeLogic.py:30-32 | ALTCTL/POSCTL/AUTO.LOITER without Takeoff (and without AUTO.LAND) is anomalous when completed, landed or deviation < 2. |
| AnomalyRules.RtlRule | ClusteringFT/decisionTreeLogic.py:33-35 | AUTO.RTL without Takeoff (and without the earlier modes) is anomalous iff not landed. |
| AnomalyRules.TakeoffSkipsModeRules | ClusteringFT/decisionTreeLogic.py:27-36 | With Takeoff in the mission the verdict is that of the geofence and later rules. |
| AnomalyRules.SingleGfactColumn | ClusteringFT/decisionTreeLogic.py:38-45 | One `GFACT_<a>` column: Land fires iff not landed or deviation < 10. Any other non-None action fires iff deviation < 10 or completed. |
| AnomalyRules.NoneActionNeverFires | ClusteringFT/decisionTreeLogic.py:40-45 | Only `GFACT_None` columns never make an anomaly. |
| AnomalyRules.GfactRaisesIff | ClusteringFT/decisionTreeLogic.py:37-39 | The geofence branch raises exactly when one of its columns has no `_`. |
| AnomalyRules.CompletedLongMissionIsNormal | ClusteringFT/decisionTreeLogic.py:46-49 | Past the mode and geofence rules, a completed mission of at least 40 s is normal. |
| AnomalyRules.ShortFlightRule | ClusteringFT/decisionTreeLogic.py:46-49 | Past the mode and geofence rules, under 40 s is an anomaly; otherwise the drift/altitude rule alone decides. |
| Pipeline.BitRowsShape | ClusteringFT/pipelineFT.py:218 | The table has 2^n rows, each a 0/1 row of length n. |
| Pipeline.BitRowsComplete | ClusteringFT/pipelineFT.py:218 | Every 0/1 assignment of the n features is a row. |
| Pipeline.BitRowsDistinct | ClusteringFT/pipelineFT.py:218 | No assignment occurs twice. |
| Pipeline.Prefixes | ClusteringFT/pipelineFT.py:118 | One prefix per column. |
| Pipeline.CheckRow | ClusteringFT/pipelineFT.py:114-152 | One loop turn of the validation decides exactly the row predicate: no shared prefix, not GFACT with states, not a lone state, and some allowed pattern covered. |
| Pipeline.SetOfSeqCard | ClusteringFT/pipelineFT.py:121 | `len(set(p)) < len(p)` holds exactly when some prefix repeats. |
| Pipeline.SharedPrefixRejected | ClusteringFT/pipelineFT.py:120-123 | Two columns sharing a prefix reject the row. |
| Pipeline.GfactWithStateRejected | ClusteringFT/pipelineFT.py:126-128 | A GFACT column together with a states column rejects the row. |
| Pipeline.LoneColumn | ClusteringFT/pipelineFT.py:130-152 | A one-column row survives exactly when it is a geofence action: a lone state, mode or throttle column is rejected. |
| Pipeline.EmptyRowRejected | ClusteringFT/pipelineFT.py:145-152 | The all-zero row is rejected. |
| Pipeline.TruthTable.constructor | ClusteringFT/pipelineFT.py:218-224 | The table has 2^n rows, each with result None. |
| Pipeline.TruthTable.ValidateCombinations | ClusteringFT/pipelineFT.py:113-153 | Writes only 0s: a rejected row gets 0, an accepted row keeps its previous result. |
| Pipeline.TruthTable.RecordVerdicts | ClusteringFT/pipelineFT.py:228-242 | Every row still None gets its probe verdict; the others keep their result. |
| Pipeline.RunCombination | ClusteringFT/pipelineFT.py:218-242 | Every rejected row holds 0 and every accepted row holds its verdict. |
| Pipeline.ProcessedCombinations | ClusteringFT/pipelineFT.py:209-214 | The count guard stops the loop after the first combination. |
| Pipeline.Pick | ClusteringFT/pipelineFT.py:169 | `random.choice` returns a member of its list. |
| Pipeline.PairsOf | ClusteringFT/pipelineFT.py:159-183 | One pair per name when every name translates. |
| Pipeline.Append | ClusteringFT/pipelineFT.py:185-188 | The two dictionary updates of one step: a new key starts empty, and a value already listed is not appended again. |
| Pipeline.CreateFuzzArgs | ClusteringFT/pipelineFT.py:155-190 | Drone id 'Polkadot' and the collected lists of the translated names, or the first name's exception. |
| Pipeline.CollectArgs | ClusteringFT/pipelineFT.py:159-188 | The loop builds exactly those lists, or stops at the first failing name. |
| Pipeline.PairsStopAt | ClusteringFT/pipelineFT.py:159-183 | Once a prefix of the row fails, the whole row fails with the same exception. |
| Pipeline.PairsFailAt | ClusteringFT/pipelineFT.py:159-183 | The first name that fails to translate decides the exception of the whole row. |
| Pipeline.CollectSnoc | ClusteringFT/pipelineFT.py:185-188 | Appending one pair changes only its key's list. |
| Pipeline.CollectContents | ClusteringFT/pipelineFT.py:185-188 | A key exists iff some name maps to it. Its list holds exactly the values paired with it and is duplicate-free. |
| Pipeline.FuzzArgOf | ClusteringFT/pipelineFT.py:160 | `split('_', 1)` cuts a name at its first `_`. |
| Pipeline.GeofenceArg | ClusteringFT/pipelineFT.py:162-164 | A GFACT feature maps to the action's code under `geofence`, and an unknown action stays as text. |
| Pipeline.ModeArg | ClusteringFT/pipelineFT.py:171-172 | LOITER, RTL and LAND become AUTO.LOITER, AUTO.RTL and AUTO.LAND. |
| Pipeline.ThrottleArg | ClusteringFT/pipelineFT.py:174-183 | 100/435/550 map to 3, 300/445/600 to 4, 570/450/615 to 5, and -100/0/225/260 to the drawn 1 or 2. |
| Pipeline.FloatToIntOfNumeral | ClusteringFT/pipelineFT.py:175 | `int(float(str(v))) == v`. |
| Pipeline.BucketsInvertTable | ClusteringFT/pipelineFT.py:174-183 | Every entry of a throttle table row buckets back to its own index, except that the two low entries share 1 or 2. |
| Pipeline.RewriteThrottles | ClusteringFT/pipelineFT.py:92-102 | In place: every throttle column becomes `throttle_<bucket>` and the others stay. On an exception, the columns before the failing one are rewritten and the rest are unchanged. |
| Pipeline.PipelineDecision | ClusteringFT/pipelineFT.py:57-111 | The rule chain's verdict as 0/1 on the original columns, after which the columns are relabelled. Exceptions come from the chain first, leaving the columns as they were. A relabelling exception is that of the first failing entry; the entries before it are rewritten and the rest untouched. |
| Pipeline.ThrottleColumn | ClusteringFT/pipelineFT.py:93-94 | `throttle_<text>` is a throttle column whose second part is the text. |
| Pipeline.RelabelBuckets | ClusteringFT/pipelineFT.py:96-102 | -100/0/225/260 become Low, 100/435/550 Mid, and 300/445/600/570/450/615 High. |
| Pipeline.RelabelNotRepeatable | ClusteringFT/pipelineFT.py:95 | A relabelled column raises if relabelled again, because `int('Low')` fails. |
| Pipeline.RelabelKeepsOthers | ClusteringFT/pipelineFT.py:93 | Columns without "throttle" are left unchanged. |
| FaultTree.TokensSpellText | ClusteringFT/FaultTreeHelper.py:105 | The word and non-word runs of a text spell the text. |
| FaultTree.TokensAreMaximalRuns | ClusteringFT/FaultTreeHelper.py:105 | Each run is of one kind, and neighbouring runs differ in kind. |
| FaultTree.NegateQuoted | ClusteringFT/FaultTreeHelper.py:105 | A maximal word followed by `'` becomes `not <word>`. |
| FaultTree.NegateNoQuote | ClusteringFT/FaultTreeHelper.py:105 | Text without `'` is unchanged by the negation. |
| FaultTree.NegateKeepsAbsent | ClusteringFT/FaultTreeHelper.py:105 | The negation only introduces the characters of `not `. |
| FaultTree.ConvertShape | ClusteringFT/FaultTreeHelper.py:108-113 | Past the `0` case, the result is `(` + single-spaced terms + `)`, and `split()` gives the terms back. |
| FaultTree.ConvertDropsOperators | ClusteringFT/FaultTreeHelper.py:96-113 | No `.` or `+` of the minimiser's notation is left. |
| FaultTree.ConvertLiteral | ClusteringFT/FaultTreeHelper.py:94-113 | `r <= w` for one plain literal converts to `(w)`. |
| FaultTree.LogicminZero | ClusteringFT/FaultTreeHelper.py:96-99 | `r <= 0` converts to `(0)`, because the blank after the head defeats the bare-`0` test. This is the form the pipeline checks (ClusteringFT/pipelineFT.py:48). |
| FaultTree.MinSizeIsMinimum | ClusteringFT/FaultTreeHelper.py:124-135 | `minFeatures` is min(5, the smallest cut size). |
| FaultTree.RemoveFirst | ClusteringFT/FaultTreeHelper.py:141 | `list.remove` deletes the first equal element. |
| FaultTree.SkipRemoveKeepsSmall | ClusteringFT/FaultTreeHelper.py:139-141 | The as-written loop removes only cuts larger than the minimum, and keeps every other. |
| FaultTree.SkipRemoveKeepsOrder | ClusteringFT/FaultTreeHelper.py:139-141 | The surviving cuts keep their order. |
| FaultTree.DropLargeAsWritten | ClusteringFT/FaultTreeHelper.py:139-142 | The index-advancing loop that removes while iterating. |
| FaultTree.MincutSetsAsWritten | ClusteringFT/FaultTreeHelper.py:116-142 | The source's cuts: split at the letters `or` and `and`, track the minimum, prune with the skipping loop. |
| FaultTree.SkipRemoveMissesNeighbour | ClusteringFT/FaultTreeHelper.py:139-141 | Two large cuts in a row: the second survives the as-written pruning. |
| FaultTree.SplitCutsBreaksLand | ClusteringFT/FaultTreeHelper.py:129 | The as-written split cuts the feature `GFACT_Land` into `GFACT_L` and an empty element. |
| FaultTree.KeepSmallKeepsExactly | ClusteringFT/FaultTreeHelper.py:139-141 | The corrected pruning keeps every cut of at most the minimum size, with its multiplicity, and nothing else. |
| FaultTree.DropLarge | ClusteringFT/FaultTreeHelper.py:139-142 | The corrected loop computes that pruning. |
| FaultTree.SplitTokensKeepsOthers | ClusteringFT/FaultTreeHelper.py:119-129 | Splitting at an operator word loses exactly the operator tokens. |
| FaultTree.TokenCutsKeepNames | ClusteringFT/FaultTreeHelper.py:119-132 | The corrected cuts never split a feature name, and no part holds an operator word. |
| FaultTree.TokenCutsSingleName | ClusteringFT/FaultTreeHelper.py:119-132 | A lone feature name, `GFACT_Land` included, is one cut of one element. |
| FaultTree.MincutSets | ClusteringFT/FaultTreeHelper.py:116-142 | The corrected `mincutSets` keeps exactly the cuts of the minimum size, in order. |
| FaultTree.KeepSmallestAreSmallest | ClusteringFT/FaultTreeHelper.py:134-141 | Pruning at the running minimum keeps exactly the cuts of that size. |
| FaultTree.ExtractedIsRest | ClusteringFT/FaultTreeHelper.py:69-70 | The value after `GFACT_` is the rest of the feature. |
| FaultTree.SubstituteMatches | ClusteringFT/FaultTreeHelper.py:71-78 | A feature's pattern matches a word only if it is that GFACT word. |
| FaultTree.ReplacementNotMatched | ClusteringFT/FaultTreeHelper.py:72-78 | No pattern matches a replacement, so the order of the features does not matter. |
| FaultTree.SubstitutedIs | ClusteringFT/FaultTreeHelper.py:67-78 | After the substitutions, a token is replaced exactly when some feature matches it. |
| FaultTree.MatchedIffGfact | ClusteringFT/FaultTreeHelper.py:61-78 | Some feature of the expression matches a token exactly when the token is a GFACT word. |
| FaultTree.ExpandGfact | ClusteringFT/FaultTreeHelper.py:59-78 | For every feature order, each whole-word `GFACT_v` becomes `(geofence_ON and geofenceAction_v)` and the other tokens are kept. |
| FaultTree.GfactNoneExpansion | ClusteringFT/FaultTreeHelper.py:71-73 | `GFACT_None` becomes `(geofence_ON and geofenceAction_OFF)`. |
| Clustering.InsertStable | ClusteringFT/Clustering.py:23 | Inserting behind equal scores keeps the entries of each score in their order. |
| Clustering.SortDescIsStableSort | ClusteringFT/Clustering.py:23 | `sorted(..., reverse=True)` by score is a permutation, non-increasing, and stable. |
| Clustering.ArrangedByType | ClusteringFT/Clustering.py:16-24 | Per type, the arranged entries are that type's entries stably sorted by score. |
| Clustering.ArrangedIsPermutation | ClusteringFT/Clustering.py:13-26 | No entry is lost or invented. |
| Clustering.FirstSeenTypes | ClusteringFT/Clustering.py:16-19 | The `defaultdict` keys are exactly the types present, each once. |
| Clustering.ArrangedGroupsTypes | ClusteringFT/Clustering.py:21-24 | Entries of one type are contiguous, and the types come in first-seen order. |
| Clustering.GroupByType | ClusteringFT/Clustering.py:16-19 | The grouping loop: the types in first-seen order, each with its entries in input order. |
| Clustering.ArrangeEntries | ClusteringFT/Clustering.py:21-26 | Extending by each sorted group yields the arranged entries. |
| Clustering.SortAndArrange | ClusteringFT/Clustering.py:13-28 | Every cluster label is kept, in order, with its entries arranged. |
| Clustering.Top | ClusteringFT/Clustering.py:39-42 | A top list has at most four features. |
| Clustering.TopMembers | ClusteringFT/Clustering.py:39-42 | A feature of a top list starts with the list's kind and is one of the cluster's features. |
| Clustering.RotatePermutes | ClusteringFT/Clustering.py:57-62 | `append(pop(0))` only permutes a list. |
| Clustering.CombinationsOf | ClusteringFT/Clustering.py:39-73 | Four pairwise-distinct new combinations per cluster. The GFACT field is the i-th top GFACT, the others come from their top lists. A missing type raises. |
| Clustering.GenerateCombinations | ClusteringFT/Clustering.py:31-75 | 4 × clusters combinations, all distinct, each drawn from its cluster's top lists. It fails with the modulo error exactly where a cluster lacks a type. |
| Chromosome.IndexOf | GenAlgo/parents_test.py:28 | `list.index`: the first position of the name, or the ValueError when absent. |
| Chromosome.GeofenceIndices | GenAlgo/parents_test.py:28 | The geofence positions exist exactly when GF, GFPRED and GFACT are all columns. |
| Chromosome.ColumnGeofenceIndices | GenAlgo/GeneticAlgorithm.py:64 | Over COLUMN_NAMES the geofence block is positions 1, 2 and 3. |
| Chromosome.CrossoverFails | GenAlgo/parents_test.py:23-41 | The crossover raises exactly when a geofence column is missing. When it succeeds there are at least three columns, so `randint(1, len-2)` has a range. |
| Chromosome.CrossoverCells | GenAlgo/parents_test.py:34-39 | Children have the parents' length and keep their own parent's GF, GFPRED and GFACT. Elsewhere child 1 is parent 1 before the point and parent 2 from it, and child 2 is symmetric. |
| Chromosome.CrossoverKeepsOrSwaps | GenAlgo/parents_test.py:34-39 | At every position the two children hold the parents' two values, kept or swapped. |
| Chromosome.CrossoverInvolution | GenAlgo/parents_test.py:34-39 | Crossing the children at the same point gives back the parents. |
| Parents.WinnerIsFirstMinimum | GenAlgo/parents_test.py:16 | `idxmin` picks one of the three, with no lower score, and the earliest drawn among equal scores. |
| Parents.SelectParents | GenAlgo/parents_test.py:7-19 | Exactly `num_parents` rows, each the winner of its tournament. `sample(n=3)` raises with fewer than three candidates, and zero rounds leave no columns to project. |
| Mutation.Mutated | GenAlgo/mutants_test.py:28-62 | A mutation keeps the row's length. |
| Mutation.MutatedKeepsGeofence | GenAlgo/mutants_test.py:28-62 | Every branch of both variants keeps "GF is not Yes ⇒ GFPRED and GFACT are None". |
| Mutation.MutatedChangesOnlyItsColumn | GenAlgo/GeneticAlgorithm.py:134-169 | Only the chosen column changes, apart from the GFPRED/GFACT side effects. Modes and throttle are plain writes, and a column outside the chain leaves the row unchanged. |
| Mutation.MutatedValues | GenAlgo/mutants_test.py:28-62 | GF No clears GFPRED and GFACT. GF Yes sets GFPRED (Yes in the pipeline's variant) and an action. A non-Flying state clears both, and Flying leaves them. GFPRED/GFACT under GF not Yes become None. |
| Mutation.RowOf | GenAlgo/GeneticAlgorithm.py:129 | A frame row has one cell per column. |
| Mutation.MutateRow | GenAlgo/GeneticAlgorithm.py:134-169 | The `.at` writes of one turn turn row i into its mutation and leave every other row as it was. |
| Mutation.Mutate | GenAlgo/GeneticAlgorithm.py:123-170 | min(10, n) rows, each the mutation of its sampled candidate. The input is not changed. |
| Mutation.MutateKeepsGeofence | GenAlgo/mutants_test.py:15-63 | Consistent candidates yield consistent mutants. |
| Genetic.ChildrenAreCrossover | GenAlgo/GeneticAlgorithm.py:102-113 | The loop body is the crossover of two rows over COLUMN_NAMES. |
| Genetic.Offspring | GenAlgo/GeneticAlgorithm.py:96-115 | The pairs (0,1), (2,3), … give 2·⌊n/2⌋ children; an odd last row is dropped. |
| Genetic.ChildrenOfColumns | GenAlgo/GeneticAlgorithm.py:102-113 | For every point, child 1 = p1's states and geofence block + p2's modes and throttle; child 2 is symmetric. |
| Genetic.OffspringAt | GenAlgo/GeneticAlgorithm.py:96-115 | Child j takes its first four columns from parent j and the last two from its pair partner. |
| Genetic.OffspringShape | GenAlgo/GeneticAlgorithm.py:93-120 | The same for the whole list: its length and every child. |
| Genetic.CrossoverPopulation | GenAlgo/GeneticAlgorithm.py:93-120 | The loop over the pairs yields exactly those children. |
| Genetic.ThrottleDictInvertsTable | GenAlgo/GeneticAlgorithm.py:62 | THROTTLE_DICT's keys are the POSCTL/ALTCTL table's values, and it maps each to its 1-based index and back. |
| Genetic.Settled | GenAlgo/GeneticAlgorithm.py:220-226 | The settled row keeps the row's length. |
| Genetic.ProbeArgsProperties | GenAlgo/GeneticAlgorithm.py:214-239 | A geofence action is never sent with a non-waypoint state. A throttle index names the row's throttle in the table; a value outside the table is sent as None, and an empty cell sends nothing. |
| Genetic.ProbeArgsFails | GenAlgo/GeneticAlgorithm.py:227-239 | Errors come only from an unknown state or a textual throttle, and a textual throttle always errs. |
| Genetic.PackagerFields | GenAlgo/GeneticAlgorithm.py:173-203 | initial_mode is AUTO.LAND iff the state is Arm/Disarm/Land, else OFFBOARD. GFPRED is Yes iff GF is Yes, else None. Throttle is kept iff it is in the table. kill_switch is No and Wind is None. The columns and the outcome are copied. |
| Genetic.PackagedProbeIsConsistent | GenAlgo/GeneticAlgorithm.py:220-246 | A packaged probe never holds a geofence action with a non-Flying state. |
| Genetic.RunProbe | GenAlgo/GeneticAlgorithm.py:206-258 | One packaged record per row, in order, from the row as `run_probe` left it. Otherwise the error of the first erring row, every earlier row having succeeded, and only when a row errs. |
| Strings.SplitJoin | ClusteringFT/pipelineFT.py:118 | `split(c)` cuts at every `c` and nowhere else. |
| Strings.WordsJoin | ClusteringFT/FaultTreeHelper.py:108-113 | `' '.join` and `split()` are inverse on a list of words. |
| Strings.ParseIntToString | ClusteringFT/pipelineFT.py:95 | `int(str(n)) == n`. |

## Left out

- Threads, locks, events, the mission queue worker, MQTT, Docker, ROS/MAVROS, `os.kill`/`sys.exit` and the signal handler are not modelled. Each locked callback is one atomic method, and the clock is the `elapsed` parameter.
- The pickle file, `write_to_file` and the log files are not modelled. The saved set and the records are fields, and the file contents are an input to `RunTest`.
- `execute_fuzz_test` and the ROS commands it sends are not modelled. The dispatch records the test, and the command dictionary is `PopulateCommand`.
- `ParamValue` is a record of its integer and real. Its ROS behaviour is not modelled.
- `set.pop` and the iteration order of Python sets and dictionaries are not modelled. The chosen element, and the order `drawFaultTree` visits its features, are parameters, and every contract holds for any choice.
- `\w`, `str.isspace` and digits are their ASCII forms. Unicode word characters and whitespace are not modelled.
- logicmin minimisation, schemdraw/cairosvg drawing, JSON parsing, `ast.literal_eval` and `pd.to_timedelta` are not modelled. Their results are inputs: the minimised formula, a parsed report with integer deviation and altitude, and the duration in seconds.
- The `Clustering()` body (k-means, chi-squared), the model training, the isolation forest and the median split of `run_algorithm` are not modelled. They are floating-point library code.
- NaN scores are not modelled, because the model's scores are reals.
- Clustering.GenerateCombinations: the unbounded uniqueness loop is bounded by a `fuel` parameter. Running out returns `OutOfFuel`, which the source never does: with singleton top lists it loops forever.
- Parents.SelectParents: pandas index labels are taken to be unique. With duplicate labels `tournament.loc[label]` returns several rows.
- Pipeline.FloatToInt: only decimal numerals are parsed. The other texts Python's `float()` accepts (exponents such as "1e3", surrounding blanks, digit underscores, "inf" and "nan") are taken as the `ValueError` path.
- Strings.ParseInt: only an optional sign followed by decimal digits is parsed. Python's `int()` also accepts surrounding blanks (" 5") and digit underscores ("1_0"); these are taken as the `ValueError` path. The same holds for `int(number_str)` in Pipeline.RewriteColumn, which uses it.
- FuzzEntities.FuzzTypeOf: `fuzz_type` is taken to start as the default `""` before `__post_init__` appends to it. The `wind` field of `Fuzz_Test` is not modelled, because nothing in the core reads it.
- Genetic.ProbeArgs: a textual throttle cell is always `BadThrottle`. The source's `int()` would accept a numeric string such as "260".
- Genetic.RunProbe: the simulator run, `os.system("rm …")` and the printing are not modelled. Each probe's outcome is an input.
- The module-level drivers at the end of the scripts, `GenAlgo/runProbe_test.py`, `ClusteringFT/Fuzz/mission_length.py` and the log analyser are not part of this model.
- FuzzTestor.FuzzTestor.OnStatus: the 10 s sleep before a Takeoff dispatch is not modelled, because it only delays the step.

## Findings

| source | as written | input that shows it | evidently intended | confidence | as-written member | corrected member |
|---|---|---|---|---|---|---|
| ClusteringFT/FaultTreeHelper.py:139-141 | `mincutSets.remove(i)` inside `for i in mincutSets` skips the element after each removal | cuts of sizes 3, 3, 1: the second size-3 cut survives | keep only the cuts of the smallest size | high, not executed | FaultTree.SkipRemoveMissesNeighbour | FaultTree.KeepSmallKeepsExactly |
| ClusteringFT/FaultTreeHelper.py:119-129 | `split('or')` / `split('and')` cut inside feature names | `GFACT_Land` becomes the elements `GFACT_L` and `` | split only at the operator words | medium, not executed | FaultTree.SplitCutsBreaksLand | FaultTree.TokenCutsKeepNames |
