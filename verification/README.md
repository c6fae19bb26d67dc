# Label reconciler model

This project models the core of a small command-line tool. The tool syncs the
labels of a GitHub repository with a labels file. It loads the desired labels
(name and colour) from the file and the current labels from the repository. It
turns each label list into a map keyed by label name. Then it reconciles the two
maps:

- a name in both maps gets an **update** carrying the desired record;
- a name that is only desired gets a **create**;
- a name that is only on the repository gets a **delete**.

Files:

- `labels.dfy`, module `Labels`: the `Label` record (`main.go:25-28`), name-keyed
  `LabelMap`s, and `WellKeyed`, which says every entry is stored under its own name.
- `loader.dfy`, module `Loader`: the list-to-map loop that the file loader and the
  repository fetcher both use (`main.go:47-50` and `main.go:82-85`). A later
  duplicate name overwrites an earlier one.
- `plan.dfy`, module `Plans`: the requests (`Op`: a `Kind` plus the label it
  carries) and their effect on the repository's labels (`Step`, `Apply`). It also
  defines `Plan`, the reference plan: the request each name calls for, listed in a
  given iteration order. The lemmas about plans are here too.
- `reconciler.dfy`, module `Reconciler`: `updateLabels` as two loops. The first
  loop walks the desired map and strikes matched names off a working copy of the
  remote map. The second loop deletes whatever is left in that copy. Go does not
  specify map iteration order, so each loop picks its next key with `:|`. Every
  contract therefore holds for every order. Each method also returns, as a ghost
  value, the order it actually used. Its result is exactly `Plan` for that order.
- `sync.dfy`, module `Sync`: one run of the tool (`main.go:185-195`), from the two
  decoded label lists to the issued requests.
- `scenarios.dfy`, module `Scenarios`: worked examples, each valid for every
  iteration order.

Updates are unconditional. A label whose colour already matches still gets an
update. A second run after a successful one is therefore not a no-op: it issues
one update per label and nothing else (`Plans.InSyncIssuesOnlyUpdates`).

## Model

| member | source | states |
|---|---|---|
| Loader.ToMapSpec | main.go:47-50 | The loaded map's keys are exactly the names in the list. Each entry is stored under its own name and is a label taken from the list. For every name, the last label with that name in the list is the one kept. |
| Loader.ToMapLastWins | main.go:47-50 | Every name in the list is loaded, and it is loaded with the last label of that name in the list. |
| Loader.ToMapConcat | main.go:48-49 | Loading a list made of two parts gives the first part's map overridden by the second part's map, so later entries win. |
| Loader.ToMapOfListing | main.go:82-85 | Take a listing, in any order and with repeats allowed. It holds only labels the map stores under their own names, and it names every key of the map. Loading that listing gives back exactly the same map. |
| Reconciler.ClassifyDesired | main.go:152-161 | Whatever order the desired names are visited in, the first loop issues exactly the plan's request for each desired name once: update if the name is remote, create if not. Afterwards the working copy holds exactly the remote entries whose names are not desired. |
| Reconciler.DeleteRemaining | main.go:163-166 | The second loop issues exactly one delete per label left in the working copy, carrying that label, and nothing else. |
| Reconciler.UpdateLabels | main.go:151-167 | The requests are exactly the plan for the order the names were visited in. That order lists every desired or remote name once. Creates and updates all come before the first delete. For name-keyed maps, no desired name is deleted and each name is addressed exactly once. Which request each name gets is `Plans.PlanPresence`, how many of each kind there are is `Plans.PlanCounts`, and convergence is `Plans.PlanConverges`. |
| Plans.PlanPresence | main.go:152-166 | In a plan over all names, every shared name has an update carrying the desired record. Every desired-only name has a create with the desired record. Every remote-only name has a delete with the remote record. |
| Plans.PlanCounts | main.go:151-167 | A plan over all names has as many creates as desired-only names, as many updates as shared names and as many deletes as remote-only names. |
| Plans.PlanKeepsDesired | main.go:152-166 | When remote labels are stored under their own names, no delete in a plan addresses a desired name. |
| Plans.PlanNamesOnce | main.go:151-167 | For name-keyed maps, the names the requests address are every known name exactly once. |
| Plans.PlanConverges | main.go:151-167 | For name-keyed maps, issuing the plan's requests against the remote labels leaves exactly the desired labels. |
| Plans.PlanOrderIndependent | main.go:152-166 | Any two iteration orders over the same names yield the same multiset of requests. |
| Plans.InSyncIssuesOnlyUpdates | main.go:153-156 | When the remote labels already equal the desired ones, the plan is one update per label carrying its record. It has no create and no delete, and it leaves the labels unchanged. |
| Sync.Run | main.go:185-195 | For any two decoded label lists, and whatever order the maps are walked in, the requests turn the repository's loaded labels into the file's loaded labels. They are exactly the plan for that order over every name of either list, so each shared name gets an update with the file's record, each file-only name a create and each repository-only name a delete (`Plans.PlanPresence`). |
| Sync.RunNamesAndCounts | main.go:185-195 | The plan of a run addresses every name of either list exactly once. It has as many creates as file-only names, as many updates as shared names and as many deletes as repository-only names. |
| Scenarios.CreateMissing | main.go:157-160 | A desired "bug" label with no remote counterpart yields exactly one create carrying it. |
| Scenarios.UpdateToDesiredColor | main.go:153-156 | A "bug" label desired as ff0000 and present as d73a4a yields exactly one update carrying ff0000. |
| Scenarios.DeleteStale | main.go:163-166 | A remote-only "stale" label yields exactly one delete. |
| Scenarios.Mixed | main.go:151-167 | Desired {bug, feature} against remote {bug, old}, in any order, yields: an update of bug (issued although its colour is unchanged), a create of feature and a delete of old. |

## Left out

- HTTP requests, URL formatting, the authorization header and response handling (`main.go:55-75`, `main.go:90-149`) are network I/O. The three mutators become emitted `Op` values. `Plans.Step` gives their assumed effect: create and update store the label under its name, and delete removes the name.
- Failed requests are not modelled. In the tool, a transport error aborts the run through `log.Fatalf` and can leave the repository partly reconciled. Non-2xx statuses are not checked at all.
- YAML and JSON decoding (`main.go:42`, `main.go:77`) are library calls. The model starts from the decoded `seq<Label>`.
- The file existence and read checks, and every `log.Fatalf` abort (`main.go:31-39` and throughout), are I/O and process termination.
- The interactive prompts, the spinner and the final message in `main` (`main.go:169-183`, `main.go:197-198`) are user interface.
- The process-wide `client`, `token` and `repo` (`main.go:18-22`) are ambient configuration. The reconciliation logic does not use them.
- Pagination of the repository's label listing is not modelled. The listing is taken as a whole.
- Go maps are references, so `updateLabels` deletes the matched names from the caller's own `currentLabels` map. The model works on a copy and returns it as `remaining` from `Reconciler.ClassifyDesired`. Nothing reads that map after the call.
- Reconciler.UpdateLabels: its contract does not restate convergence, the request counts, or which request each name gets. It says the requests are `Plans.Plan` over an enumeration of all names. `Plans.PlanConverges`, `Plans.PlanCounts` and `Plans.PlanPresence` prove those facts for every such plan. `Sync.Run` states convergence directly for a whole run, and `Sync.RunNamesAndCounts` the counts. The exactly-once-per-name and no-desired-name-deleted properties are stated only for maps that store each label under its own name (`Labels.WellKeyed`). The requests carry only the label, so for other maps a label's name and its key can differ. Both maps the tool builds have this shape (`Loader.ToMapSpec`), and `Sync.RunNamesAndCounts` states exactly-once-per-name for a whole run without any condition.
- Sync.Run: its contract does not restate how often each name and each kind occurs. It says the requests are `Plans.Plan` over an enumeration of the loaded names, and `Sync.RunNamesAndCounts` states the exactly-once and per-kind counts for every such plan of a run.
