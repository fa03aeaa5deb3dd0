# Server Control Panel — a Dafny model

The Server Control Panel is a Windows Forms tool. It keeps named
**profiles**. Each profile holds a list of **executables** (nickname, path,
raw parameter string, start-on-login flag) and a list of OS **services**
(nickname, service name, start-on-login flag). The operator edits a draft
copy of a profile on the edit tab and saves it back into the list. The tool
starts and stops the programs and services a profile names. At start-up it
launches everything that is flagged to start on login.

This project models the core of `Program.cs`:

- `text.dfy` (`Text`): the .NET string operations the handlers rely on.
  These are ordinal ignore-case comparison, `IsNullOrWhiteSpace`, `Trim`
  and `TrimEnd`.
- `model.dfy` (`Model`): the three data classes as datatypes, the nickname
  rule, and the editor's draft copy (`FillEditFields`).
- `editing.dfy` (`Editing`): building items from the input fields. It also
  covers the upsert by nickname or name, matched ignoring case, removing a
  selected item, and deleting profiles by name.
- `panel.dfy` (`Panel`): the form's state as a class. It holds the profile
  list and the draft (`editingProfile`), and each edit-tab click handler is a
  method.
- `startup.dfy` (`Startup`): the start-up loop of the form's constructor,
  proved against a specification function `LoginPlan`.
- `lifecycle.dfy` (`Lifecycle`): starting and stopping one executable or one
  service. The operating system is given as parameters that say what each
  call would report. These cover file existence, the exception `Process.Start`
  throws, the process lookup, whether `Kill` and `WaitForExit` throw, and the
  service status and service calls. The model computes which calls are made
  and what the operator is told.

The code is modelled as written, including where it loses information:

- Saving over an existing profile copies only the two item lists. The stored
  profile's `StartOnLogin` flag is not updated (`Editing.UpsertProfile`).
- Updating an existing item by nickname copies the path and parameters, or
  the service name. The stored item keeps its own `StartOnLogin`.
- The draft copy (`FillEditFields`) copies no `StartOnLogin` flag at all. A
  profile that is selected and saved again under its own name therefore
  starts nothing at login. `Panel.ResavingDropsLoginStarts` proves this.
- Every failure of a service command shows the same "run as Administrator"
  text, whatever went wrong.

## Model

| member | source | states |
|---|---|---|
| Text.Fold | Program.cs:287 | folding keeps the length; an ignore-case comparison is equality of folds, so it is an equivalence |
| Text.EqualsIgnoreCaseCharwise | Program.cs:287 | two strings are equal ignoring case iff they have the same length and agree character by character once lower-cased |
| Text.TrimStart | Program.cs:281 | the result is a suffix of the input; the dropped prefix is whitespace; the result is empty or starts with a non-whitespace character |
| Text.TrimEnd | Program.cs:595 | the result is a prefix of the input; the dropped suffix is whitespace; the result is empty or ends with a non-whitespace character |
| Text.TrimStartEmptyIffBlank | Program.cs:274 | a string is blank iff trimming its start leaves nothing |
| Text.TrimBothEnds | Program.cs:274-283 | a string is blank iff trimming its start and then its end leaves nothing; a non-empty result starts and ends with non-whitespace |
| Text.Trim | Program.cs:281-283 | the result is no longer than the input; it is empty iff the input is blank; a non-empty result starts and ends with non-whitespace; its exact value is given by `Text.TrimCutsBlankEnds` and `Text.TrimAround` |
| Text.TrimCutsBlankEnds | Program.cs:281-283 | `Trim` returns a contiguous piece of the input with only whitespace before and after it |
| Text.TrimStartAt | Program.cs:281-283 | `TrimStart` returns exactly the suffix that follows a blank prefix and starts with a non-whitespace character, or nothing |
| Text.TrimEndAt | Program.cs:595 | `TrimEnd` returns exactly the prefix that precedes a blank suffix and ends with a non-whitespace character, or nothing |
| Text.TrimAround | Program.cs:281-283 | trimming `a + m + b` with blank `a` and `b` gives `m` when `m` neither starts nor ends with whitespace; with `Text.TrimCutsBlankEnds` this fixes `Trim`'s value |
| Text.TrimEndAppend | Program.cs:595 | trimming the end of `a + b` gives `TrimEnd(a)` when `b` is blank, and `a + TrimEnd(b)` otherwise |
| Model.Draft | Program.cs:822-841 | the draft keeps the name and every item's nickname, path, parameters and service name, in order and with the same lengths; the profile's flag and every item's flag are false |
| Model.DraftIdempotent | Program.cs:822-841 | drafting a draft gives the same draft |
| Model.DraftKeepsUniqueNicknames | Program.cs:822-841 | a draft of a profile with unique nicknames has unique nicknames |
| Editing.FirstIndex | Program.cs:287 | the result is the first position whose key equals the name ignoring case; None iff no position matches |
| Editing.Upsert | Program.cs:287-296 | the length stays iff some key matches and grows by one otherwise; every entry other than the first match is unchanged; with no match the new item is last |
| Editing.UpsertFacts | Program.cs:287-296 | for any merge that keeps keys: the length grows by one iff no key matched; unique keys stay unique; afterwards the first match is the updated or appended entry |
| Editing.FirstIndexOfUnique | Program.cs:359 | with unique keys, the first match for an entry's key is that entry |
| Editing.UpsertIdempotent | Program.cs:287-296 | repeating an upsert changes nothing when merging the same item twice changes nothing more |
| Editing.NewExecutable | Program.cs:274-285 | an item exists iff nickname and path are not blank; it holds the trimmed nickname, path and parameters (nickname and path non-empty) and the checkbox flag |
| Editing.UpsertExecutable | Program.cs:287-296 | the length stays iff the nickname is present; on a match only that entry changes, its path and parameters taken from the new item, its nickname and flag kept; otherwise the item is appended; unique nicknames stay unique |
| Editing.UpsertExecutableThenFind | Program.cs:287-296 | after the upsert, the nickname finds an entry with the new path and parameters; repeating the upsert changes nothing |
| Editing.NewService | Program.cs:316-328 | an item exists iff the nickname is not blank and a service is selected; it holds the trimmed nickname, the selected service name and the checkbox flag |
| Editing.UpsertService | Program.cs:329-331 | the length stays iff the nickname is present; on a match only that entry's service name changes; otherwise the item is appended; unique nicknames stay unique |
| Editing.UpsertServiceThenFind | Program.cs:329-331 | after the upsert, the nickname finds an entry with the new service name; repeating the upsert changes nothing |
| Editing.RemoveAt | Program.cs:306-308 | removing the selected entry drops exactly that one element and keeps the others in order |
| Editing.RemoveAtKeepsUnique | Program.cs:306-308 | removing an entry keeps keys unique |
| Editing.UpsertProfile | Program.cs:356-368 | the length stays iff the name is present; on a match only that profile changes, taking the draft's two lists and keeping its name and login flag; otherwise the draft is appended; unique names and the nickname rule are kept |
| Editing.UpsertExistingProfile | Program.cs:359-364 | with unique names, saving a draft whose name matches the profile at a position replaces exactly that profile by its merge with the draft |
| Editing.RemoveProfilesNamed | Program.cs:381 | no remaining profile has the name; every remaining profile was in the list; every profile without the name remains |
| Editing.RemoveProfilesNamedConcat | Program.cs:381 | deletion distributes over concatenation, so order is kept |
| Editing.RemoveProfilesNamedIdempotent | Program.cs:381 | deleting an absent name changes nothing; deleting twice is deleting once |
| Editing.NoMatchUnchanged | Program.cs:381 | deleting a name no profile has returns the list unchanged |
| Editing.UniqueKeysTail | Program.cs:381 | the tail of a uniquely keyed list is uniquely keyed and shares no key with the head |
| Editing.RemoveProfilesNamedKeepsUnique | Program.cs:381 | deletion keeps profile names unique |
| Editing.ConsKeepsUnique | Program.cs:381 | placing a profile before unique profiles drawn from a list without its name keeps names unique |
| Editing.RemoveProfilesNamedCount | Program.cs:381 | with unique names, deletion removes exactly one profile when the name is present and none otherwise |
| Panel.LoadedProfiles | Program.cs:687-703 | a missing or unreadable file gives no profiles; a parsed array is loaded as it is; a non-empty list comes only from a parsed array |
| Panel.ControlPanel.constructor | Program.cs:127 | the list is the loaded profiles and there is no draft |
| Panel.ControlPanel.NewProfile | Program.cs:163-169 | the draft becomes the draft of an empty profile; the list is unchanged |
| Panel.ControlPanel.SelectProfile | Program.cs:171-180 | selecting an existing position makes the draft a copy of that profile; nothing else changes; the nickname rule carries over |
| Panel.ControlPanel.AddExecutable | Program.cs:271-301 | a missing draft becomes an empty profile; the item is accepted iff nickname and path are not blank, and then upserted into the draft; the list is unchanged; the nickname rule is kept |
| Panel.ControlPanel.RemoveExecutable | Program.cs:303-311 | with a draft and a selection, the selected executable is removed; otherwise nothing changes; the nickname rule is kept |
| Panel.ControlPanel.AddService | Program.cs:313-336 | a missing draft becomes an empty profile; the item is accepted iff the nickname is not blank and a service is selected, and then upserted; the nickname rule is kept |
| Panel.ControlPanel.RemoveService | Program.cs:338-346 | with a draft and a selection, the selected service is removed; otherwise nothing changes; the nickname rule is kept |
| Panel.ControlPanel.SaveProfile | Program.cs:348-373 | saved iff the name is not blank; then the draft takes the trimmed name and the checkbox flag and the list becomes its upsert; unique names and the nickname rule are kept |
| Panel.ControlPanel.DeleteProfile | Program.cs:375-387 | deleted iff there is a draft with a non-blank name and the operator confirms; then every profile with that name goes and the draft becomes an empty one; otherwise nothing changes; unique names are kept |
| Panel.ResavedProfileIsSilent | Program.cs:356-363 | merging a profile with its own draft keeps its name and login flag, and the merged profile starts nothing at login |
| Panel.ResavingDropsLoginStarts | Program.cs:356-363 | reselecting and resaving a stored profile keeps the list's length and the profile's flag, but removes all of that profile's requests from the login plan |
| Startup.ProfileStarts | Program.cs:130-137 | a profile that contributes any request is flagged to start on login |
| Startup.ExecutableStarts | Program.cs:132-133 | every request is an executable start |
| Startup.ServiceStarts | Program.cs:135-136 | every request is a service start |
| Startup.RunStartupActions | Program.cs:130-137 | the loop issues exactly the requests of `LoginPlan` |
| Startup.StartProfile | Program.cs:130-137 | one pass issues the profile's part of the plan |
| Startup.StartFlaggedExecutables | Program.cs:132-133 | the inner loop appends the flagged executables' requests in order |
| Startup.StartFlaggedServices | Program.cs:135-136 | the inner loop appends the flagged services' requests in order |
| Startup.ReplaceBySilentProfile | Program.cs:130-137 | replacing a profile by one that starts nothing leaves the plans of the profiles before and after it |
| Startup.LoginPlanSnoc | Program.cs:130-137 | `LoginPlan`, the loop's specification, reads the profiles in list order: appending a profile appends its part of the plan |
| Startup.LoginPlanSnocMember | Program.cs:130-137 | a request is in the plan with one more profile iff it is in the earlier plan or in that profile's part |
| Startup.LoginPlanConcat | Program.cs:130 | the plan of a concatenation is the concatenation of the plans |
| Startup.ProfileGatesItems | Program.cs:130-137 | an unflagged profile contributes nothing whatever its items' flags; a flagged one contributes its flagged executables, then its flagged services |
| Startup.UnflaggedStartNothing | Program.cs:132-136 | items with no flag set produce no request |
| Startup.ExecutablesBeforeServices | Program.cs:132-136 | within a profile, every executable request precedes every service request |
| Startup.ExecutableStartsMember | Program.cs:132-133 | an executable is requested iff it is in the list and flagged |
| Startup.ServiceStartsMember | Program.cs:135-136 | a service is requested iff some flagged item names it |
| Startup.ProfileStartsExecutable | Program.cs:130-133 | an executable is in one profile's part iff the profile is flagged and holds it flagged |
| Startup.ProfileStartsService | Program.cs:130-136 | a service is in one profile's part iff the profile is flagged and holds a flagged item with that service name |
| Startup.LoginStartsExecutable | Program.cs:130-133 | an executable is started at login iff some flagged profile holds it flagged |
| Startup.LoginStartsService | Program.cs:130-136 | a service is started at login iff some flagged profile holds a flagged item with that service name |
| Startup.WebStackScenario | Program.cs:130-137 | a flagged profile with a flagged executable and an unflagged service gives exactly one request, the executable's |
| Lifecycle.Arguments | Program.cs:595 | the argument string starts with `/c start "" "<path>"`, is a prefix of that text followed by one space and the parameters, and ends with a non-whitespace character |
| Lifecycle.ArgumentsShape | Program.cs:595 | the argument string is `/c start "" "<path>"` followed by one space and the parameters up to their trailing whitespace, or ends at the closing quote when the parameters are blank |
| Lifecycle.StartExecutable | Program.cs:585-609 | a missing file is reported iff the file does not exist, with its path; a launch failure iff `Process.Start` throws, with the exception's message; a launch runs `cmd.exe` with no window and a hidden window style, without shell execute, in the program's directory or the current one, with the argument shape above |
| Lifecycle.FileName | Program.cs:615 | the result is the suffix after the last separator and holds no separator |
| Lifecycle.StripExtension | Program.cs:615 | the result is the prefix before the last '.', or the whole name when it has none |
| Lifecycle.ProcessName | Program.cs:615 | the process name is no longer than the path and holds no directory separator |
| Lifecycle.ProcessNameOfPath | Program.cs:615 | the process name is the path's file name up to its last '.', or the whole file name when it has no '.' |
| Lifecycle.ProcessNameOfBareName | Program.cs:615 | a path without a directory separator is its own file name, so `notepad.exe` is looked up as `notepad` |
| Lifecycle.FileNameAfterSeparator | Program.cs:615 | the file name of `dir` + separator + `name` is `name` |
| Lifecycle.StripLastExtension | Program.cs:615 | stripping `stem.ext` gives `stem` when `ext` has no '.' |
| Lifecycle.ProcessNameOfProgram | Program.cs:615 | the process name of `<dir>\<stem>.<ext>` is `stem`, whatever dots the stem holds |
| Lifecycle.KillCalls | Program.cs:622-626 | the kill loop makes exactly two calls per process |
| Lifecycle.KillCallsShape | Program.cs:622-626 | every process gets a tree kill and then a 3000 ms wait, in list order, whether or not earlier calls threw |
| Lifecycle.StopExecutable | Program.cs:611-632 | a failed lookup is reported; no process means "not running" under the derived name; otherwise exactly the kill-and-wait calls are made |
| Lifecycle.ControlService | Program.cs:633-670 | start is requested iff the status is Stopped or Paused; stop iff it is Running; nothing is sent iff the status cannot be read or the command does not act from it; otherwise the request is sent, followed by the 30 s wait iff the request did not throw; an unreadable status is reported iff the status read failed, a refused request iff the request threw, a timeout iff the request succeeded and the wait did not see the target |
| Lifecycle.ServiceCommandsAlternate | Program.cs:639-662 | the two commands never act from one status; after a successful command, repeating it sends nothing and the opposite command acts |
| Lifecycle.FailureDialog | Program.cs:646-669 | the failure dialog's text is the advice to run as Administrator, for either command |
| Lifecycle.DialogShown | Program.cs:646-669 | a dialog is shown iff the run failed, and its text is the Administrator advice |
| Lifecycle.FailuresLookAlike | Program.cs:646-669 | any two failed runs of one command show the same dialog, whatever failed; a run from the target status shows none |

## Left out

- The window, its tabs, lists, layout and message boxes. Dialog texts appear only where they are the outcome (the service failure text).
- JSON serialisation and all file writes (`SaveProfiles`). Loading is modelled by what the file read yields: missing, unreadable, or parsed.
- `RegisterAppOnLogin`: the registry `Run` key is outside the model.
- `IsRunningAsAdministrator`, the `GetServices` enumeration and its ordering by display name: these are calls into the OS. The selected service name is a parameter of `AddService`.
- The effects of the OS calls: starting a process, killing one, timing, the service manager. Their outcomes are parameters, and the model computes which calls are made.
- `RenderProfileList` sorts by name with the culture's comparer and re-selects the first profile, which re-drafts it. The list's display order and that event chain are not modelled.
- Aliasing: when "Save Profile" appends the draft, the stored profile and the draft are briefly one object. `RenderProfileList` (Program.cs:371) then re-selects the first profile and `FillEditFields` replaces the draft by a fresh copy, so the alias does not outlast the handler. The model has separate values throughout.
- Panel.ControlPanel.constructor: the source's `RenderProfileList` ends with a draft of the first profile in name order; the model starts with no draft.
- Panel.ControlPanel.SaveProfile: the source ends with a draft of the first profile in name order; the model keeps the saved draft.
- Text.EqualsIgnoreCase: case folding covers ASCII letters only. Non-ASCII case pairs that ordinal ignore-case comparison folds are not modelled.
- Lifecycle.StartExecutable: `Path.GetDirectoryName` is given as a parameter, because its handling of roots and of invalid paths is library behaviour.
- Lifecycle.FileName: it treats '\\' and '/' as separators. It does not model drive prefixes such as `C:name`.
- Lifecycle.StopExecutable: which processes `GetProcessesByName` returns for a name is given as a parameter.
- Lifecycle.ControlService: the model keeps the failure kinds apart while the source catches every exception alike; `DialogShown` maps them all to the one dialog the operator sees.
- Panel.ControlPanel.RemoveExecutable: the source removes the selected object, which is its first entry by reference. The model removes by position.
- Panel.ControlPanel.RemoveService: removes by position, for the same reason.
- The "Start"/"Stop" buttons of the action panel only call the start and stop operations modelled in `Lifecycle`.
