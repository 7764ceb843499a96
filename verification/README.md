# Verified models of the desktop shell's stateful cores

A Dafny model of six parts of the desktop shell, each with the properties it is there for:

- the **dock's element list** (`panels/dock/taskmanager/dockglobalelementmodel.cpp`), an index over the
  installed applications and the open windows that is patched in place row by row;
- the **launcher's pages and groups** (`applets/dde-apps/itemspage.cpp`, `appgroupmanager.cpp`,
  `appgroup.cpp`), bounded pages that stand for one flat list, kept in step with the installed
  applications, rearranged by drag and drop, saved and loaded;
- the **plugin forest and the applet tree** (`frame/pluginloader.cpp`, `frame/containment.cpp`,
  `frame/appletbridge.cpp`, `shell/appletloader.cpp`), recursion over parent links that may be cyclic,
  the order of loading and initialising, and a breadth-first search;
- the **window-overlap cache** of the smart-hide mode (`panels/dock/x11dockhelper.cpp`);
- the **D-Bus object-path escaping** (`panels/dock/taskmanager/globals.h`), a printer and a parser made of
  global replacements;
- the **category vote** (`applets/dde-apps/categoryutils.cpp`).

`dafny verify dfyconfig.toml` checks everything.

## How it is arranged

Code that changes things step by step is a class with the source's fields (`DockGlobalElementModel`,
`ItemsPage`, `AppGroup`, `AppGroupManager`, `DPluginLoader`, `DAppletLoader`, `X11DockHelper`) or a method
with the source's loops. Each method is proved against a function of the old state, and the lemmas then say
what that function means. `Lists` holds Qt's list operations and their laws, `Arithmetic` three facts about
division.

| files | subject |
|---|---|
| `DockState`, `DockAgreement`, `DockCoverage`, `DockGrouping`, `DockView`, `DockRuns`, `DockInsertions`, `DockOrder`, `DockShifts`, `DockElements` | the dock |
| `Pages`, `PageSizes`, `ItemsPages`, `GroupIds`, `Groups`, `GroupItems`, `GroupSync`, `GroupDrops`, `GroupJoins`, `GroupStorage`, `AppGroupManagers` | the launcher |
| `PluginForest`, `PluginOrder`, `PluginLoaders`, `AppletTree`, `AppletOrder`, `AppletLoaders`, `AppletBridges` | plugins and applets |
| `WindowOverlap` | smart hide |
| `ObjectPath` | escaping |
| `CategoryVotes` | categories |

## Where the code falls short of what it is for

Each of these is stated as an exact condition, next to the property it limits, with a concrete case.

- The shift after the dock's window-insertion loop also moves the entries just added: right exactly when
  only the first new row carries an id and no named window stood at its place
  (`DockShifts.InsertWindowsConsistentIff`, `DockShifts.TwoRowsAtOnceFail`). The window monitor only ever
  appends one row.
- The dock has no handler for newly installed applications. One that appears in the middle of the
  applications model leaves the launchers behind it pointing at the wrong rows
  (`DockShifts.InsertAppConsistentIff`, `DockShifts.InstalledInFrontFails`). One that is docked already
  stays without an entry (`DockCoverage.InstallAppCoveredIff`, `DockRuns.LateInstallReachable`): a reload
  skips every id that was docked before (`DockCoverage.ReloadDockedCoveredIff`), so of all single steps only
  opening one of its windows brings an entry back (`DockRuns.MissingUntilWindowOpens`), or a reload without
  the id followed by one with it (`DockCoverage.TwoReloadsRepair`). This is also the only case in which
  opening and closing a window does not restore the list (`DockRuns.OpenThenClose`).
- `AppGroup::parseGroupId` skips one character too many. Only folder number 0 survives the trip through
  the name (`GroupIds.ParseGroupIdIff`), and the groups that the manager itself names read as folder 0,
  the top level, up to number 99 and sometimes beyond (`GroupIds.MadeGroupIsTopLevelIff`). Hence their
  emptied folders are never cleaned up (`GroupSync.ZeroFoldersStay`).
- The reported folder id is used as a row number. A drop next to an item of the same folder moves the drag
  beside the drop exactly when both were found in the row of that number (`GroupDrops.DropIff`,
  `GroupDrops.ReportedPositionIff`); a folder that the manager named passes only if its number happens to
  read as its row (`GroupDrops.MadeFolderIsMistaken`), and otherwise two items of another row, in practice
  the top level, are moved instead (`GroupDrops.WrongItemsMoved`).
- A drop next to an item of another folder takes the drag out and inserts the drop's id instead of the
  drag's. There is no condition under which this conserves the items: for any two items, the drop is there
  once more than before (`GroupDrops.DroppedAcrossCount`, `GroupDrops.DroppedAcrossNeverConserves`).
- A join into a new folder conserves the items exactly when the drag was found in its own row and the drop
  is on the top level (`GroupJoins.JoinConservesIff`, `GroupJoins.JoinConservesOwnIff`); otherwise one of
  them ends up in two places (`GroupJoins.JoinDoublesExample`). The placeholder takes the drop's place
  exactly when the drag's page stays, or comes after the drop's page, or the drop is alone on its page (with
  no empty page about; the exact condition is `GroupJoins.KeepsPlace`), because the page number was read
  before the drag left (`GroupJoins.JoinInPlaceIff`, `GroupJoins.JoinOutOfPlace`).
- On a first start the top level is itself a group that the manager names: it reads as folder 0, but its
  pages hold 12 items, since only the name internal/folder/0 gives 32 (`GroupStorage.LoadedExactly`).
- A folder id can read as -1, which stands for "not found": a synchronisation then duplicates what the
  folder holds (`GroupSync.SyncDuplicateFreeIff`, `GroupSync.DoubledExample`).
- An emptied folder takes the first item of its name off the top level, even an application's
  (`GroupSync.SyncLosesIff`, `GroupSync.LostExample`).
- Joining the only item of its page onto one of the last page inserts behind the last page
  (`GroupJoins.JoinFitsIff`, `GroupJoins.JoinOutOfRange`); the code only asserts that this does not happen.
- A plugin is reached by the walk from the root plugins exactly when neither it nor an ancestor names the
  reserved root as its parent or lies on a parent cycle (`PluginForest.AttachedIff`,
  `PluginForest.LostPlugins`).
- Entering smart hide forgets the windows without an announcement. The announced value can then be wrong,
  and stays so until some window's flag changes, a window goes away or the show-desktop state is announced,
  since an event that leaves the flags alone announces nothing (`WindowOverlap.X11DockHelper.OnHideModeChanged`,
  `WindowOverlap.StaleAfterModeChange`).
- Escaping replaces globally, one special character after another, so an underscore behind another special
  character is escaped again (`ObjectPath.EscapeIsPerCharacterIff`), and text that spells out an escape is
  decoded (`ObjectPath.EscapeRoundTripIff`, `ObjectPath.RoundTripFails`).

## Model

| member | source | states |
|---|---|---|
| DockElements.DockGlobalElementModel.Run | panels/dock/taskmanager/dockglobalelementmodel.cpp:34-186 | After any sequence of source changes and user actions the entries agree with both sources, and whoever read the ids at the start and replayed only the signals since then holds exactly the model's ids |
| DockElements.DockGlobalElementModel.OnAppRowsRemoved | panels/dock/taskmanager/dockglobalelementmodel.cpp:34-57 | Row by row removal and the shift take out exactly the launchers of the removed range and renumber the ones behind it, with a signal for each row |
| DockElements.DockGlobalElementModel.OnWindowRowsInserted | panels/dock/taskmanager/dockglobalelementmodel.cpp:59-124 | The in-place loop and the shift give `RowsInserted`, and a listener stays in step |
| DockElements.DockGlobalElementModel.OnWindowRowsRemoved | panels/dock/taskmanager/dockglobalelementmodel.cpp:126-186 | Closing the rows one at a time, asking each time about the windows still listed, is one pass over the original list in which an application's last window alone leaves its launcher |
| DockElements.DockGlobalElementModel.LoadDockedElements | panels/dock/taskmanager/dockglobalelementmodel.cpp:258-312 | The two loops give `ReloadDocked`, with a signal for each row that comes or goes |
| DockElements.DockGlobalElementModel.MoveItem | panels/dock/taskmanager/dockglobalelementmodel.cpp:508-520 | The entry at `from` ends up at `to` and the others keep their order, announced with Qt's "before destination row"; anything out of range or onto itself changes nothing |
| DockElements.DockGlobalElementModel.GroupItemsByApp | panels/dock/taskmanager/dockglobalelementmodel.cpp:522-554 | The nested in-place loops terminate in the stable grouping, or do nothing when windows are split |
| DockAgreement.OpenWindowConsistent | panels/dock/taskmanager/dockglobalelementmodel.cpp:59-124 | Opening a window keeps: entries point at live rows with their id, window entries are in bijection with named windows, a launcher shares its id with nobody |
| DockAgreement.CloseWindowsConsistent | panels/dock/taskmanager/dockglobalelementmodel.cpp:126-186 | The same for closing any range of windows |
| DockAgreement.UninstallAppsConsistent | panels/dock/taskmanager/dockglobalelementmodel.cpp:34-57 | The same for uninstalling any range of applications |
| DockAgreement.ReloadDockedConsistent | panels/dock/taskmanager/dockglobalelementmodel.cpp:258-312 | The same for reloading the docked list; in particular every launcher left is docked |
| DockRuns.RunConsistent | panels/dock/taskmanager/dockglobalelementmodel.cpp:34-186 | The agreement holds after every run of steps |
| DockCoverage.InstallAppCoveredIff | panels/dock/taskmanager/dockglobalelementmodel.cpp:34-57 | An installation keeps "every docked, installed id has an entry" if and only if the id is not docked or already has one |
| DockCoverage.CloseWindowsCovered | panels/dock/taskmanager/dockglobalelementmodel.cpp:130-176 | Closing windows never takes a docked, installed application off the dock |
| DockCoverage.ReloadDockedCoveredIff | panels/dock/taskmanager/dockglobalelementmodel.cpp:258-312 | A reload leaves every docked, installed id with an entry if and only if each installed id of the new list that was docked before has one already |
| DockCoverage.ReloadSkipsDocked | panels/dock/taskmanager/dockglobalelementmodel.cpp:283-284 | A docked id without an entry gets none from any reload |
| DockCoverage.TwoReloadsRepair | panels/dock/taskmanager/dockglobalelementmodel.cpp:258-312 | A reload without the id and one with it do bring the entry back |
| DockRuns.MissingUntilWindowOpens | panels/dock/taskmanager/dockglobalelementmodel.cpp:34-312 | A docked id without an entry gets one in a step if and only if the step opens one of its windows |
| DockRuns.LateInstallReachable | panels/dock/taskmanager/dockglobalelementmodel.cpp:34-312 | Four steps from an empty dock lead to a docked, installed application without an entry, which the same docked list does not bring back |
| DockRuns.StepCoveredIff | panels/dock/taskmanager/dockglobalelementmodel.cpp:34-186 | Coverage survives a step if and only if the step is not a late installation |
| DockRuns.RunCovered | panels/dock/taskmanager/dockglobalelementmodel.cpp:34-186 | In runs without late installations every docked, installed id always has an entry |
| DockRuns.OpenThenClose | panels/dock/taskmanager/dockglobalelementmodel.cpp:63-176 | Opening a window and closing it restores the list if and only if the application did not lack a launcher it should have had |
| DockRuns.LauncherRemains | panels/dock/taskmanager/dockglobalelementmodel.cpp:130-176 | Closing a range holding all windows of a docked, installed application leaves exactly one entry for it, its launcher |
| DockInsertions.PlaceOrder | panels/dock/taskmanager/dockglobalelementmodel.cpp:63-113 | A new window takes its launcher's place or goes behind its application's windows, and nobody else's order changes |
| DockOrder.PlaceExactly | panels/dock/taskmanager/dockglobalelementmodel.cpp:74-113 | A new window takes the place of its application's first entry if that is a launcher; else it goes right behind the application's last entry, or to the end of the list if there is none; nothing else moves |
| DockOrder.RowsInOrder | panels/dock/taskmanager/dockglobalelementmodel.cpp:63-114 | Of rows inserted together, windows of one application follow each other in row order, and the first window of an application without an entry stands behind those of all earlier rows |
| DockOrder.CloseWindowsExactly | panels/dock/taskmanager/dockglobalelementmodel.cpp:126-186 | Which entries stay when a range of windows closes, in their order, and what becomes of each: of an application's closed windows the one with the greatest row leaves the launcher in its place, if no window of it stays and it is docked and installed |
| DockOrder.UninstallAppsExactly | panels/dock/taskmanager/dockglobalelementmodel.cpp:34-57 | Which entries stay when a range of applications goes, in their order, with the rows behind renumbered |
| DockOrder.ReloadDockedExactly | panels/dock/taskmanager/dockglobalelementmodel.cpp:258-312 | A reload keeps the windows and the launchers still docked, in their order, and behind them come the launchers of what is newly listed, installed, was not docked and had no entry, each once, in the order of the list |
| DockShifts.InsertWindowsConsistentIff | panels/dock/taskmanager/dockglobalelementmodel.cpp:116-122 | Inserting any rows anywhere keeps the agreement if and only if only the first new row is named and no named row stood at its place |
| DockShifts.TwoRowsAtOnceFail | panels/dock/taskmanager/dockglobalelementmodel.cpp:116-122 | Two named windows inserted at once into an empty dock break it |
| DockShifts.InsertAppConsistentIff | panels/dock/taskmanager/dockglobalelementmodel.cpp:34-57 | An application inserted anywhere keeps the agreement if and only if no launcher points at that row or behind it |
| DockShifts.InstalledInFrontFails | panels/dock/taskmanager/dockglobalelementmodel.cpp:34-57 | One launcher and an application inserted in front of it break it |
| DockElements.AppendedRowNeedsNoShift | panels/dock/taskmanager/abstractwindowmonitor.cpp:111-115 | For the one appended row the monitor reports, the shift does nothing |
| DockInsertions.StaysGrouped | panels/dock/taskmanager/dockglobalelementmodel.cpp:34-312 | Once each application's entries stand together, every step but a drag keeps them together |
| DockGrouping.StableGroupingMeaning | panels/dock/taskmanager/dockglobalelementmodel.cpp:522-554 | The grouping is the only list with contiguous applications, the same entries per application in the same order, and applications in order of first occurrence |
| DockGrouping.StableGroupingPermutes | panels/dock/taskmanager/dockglobalelementmodel.cpp:522-554 | Grouping is a permutation |
| DockGrouping.StableGroupingIdempotent | panels/dock/taskmanager/dockglobalelementmodel.cpp:522-554 | Grouping a grouped list changes nothing |
| DockView.MoveSeen | panels/dock/taskmanager/dockitemmodel.cpp:55-80 | A listener that replays a forwarded row move sees the list move the model made |
| DockView.LateListenerFollows | panels/dock/taskmanager/dockitemmodel.cpp:55-80 | A listener that attaches in mid-run and reads the rows once follows from there |
| Pages.ChunksMeaning | applets/dde-apps/itemspage.cpp:80-107 | Cutting into pages loses nothing, fills all pages but the last and makes no empty one |
| ItemsPages.ItemsPage.AppendPage | applets/dde-apps/itemspage.cpp:80-107 | The loop over the full pages and the remainder appends those chunks |
| ItemsPages.ItemsPage.AppendItem | applets/dde-apps/itemspage.cpp:110-127 | The item lands on the first page with room from the given one on, or on a new page; by default at the end of the flat list |
| PageSizes.AppendItemExactly | applets/dde-apps/itemspage.cpp:110-127 | From the given page on, or by default on the last page, the first page with room gets the item at its end; only if none has room, a page of its own is added |
| PageSizes.SameFlatSameSizes | applets/dde-apps/itemspage.cpp:80-284 | The flat list and the page sizes determine the pages, so the rows on sizes and those on the flat list together fix each result |
| Pages.InsertItemRefines | applets/dde-apps/itemspage.cpp:129-145 | However far the overflow cascades, bounds hold, earlier pages are untouched, and the flat list is the old one with the id inserted at the clamped position |
| Pages.InsertItemSizes | applets/dde-apps/itemspage.cpp:129-145 | The cascade stops at the first page with room, the only one whose size changes, or adds one page of one item |
| Pages.PagesDetermined | applets/dde-apps/itemspage.cpp:129-145 | Flat list and page sizes determine the pages, so the two lemmas above fix insertItem completely |
| ItemsPages.ItemsPage.InsertItem | applets/dde-apps/itemspage.cpp:129-145 | The recursion in place does exactly that |
| ItemsPages.ItemsPage.MoveItemPosition | applets/dde-apps/itemspage.cpp:156-177 | The in-place move, with its early return and the removal of emptied pages, equals `MovedPosition` and is one move in the flat list |
| Pages.MoveItemPositionRefines | applets/dde-apps/itemspage.cpp:156-177 | One occurrence moves to a known place; the rest of the flat list is unchanged and bounds hold |
| Pages.MoveLeavesNoEmptyPage | applets/dde-apps/itemspage.cpp:156-177 | If no page was empty before, none is after, even when the source page empties or the cascade comes back through it |
| PageSizes.MoveItemPositionSizes | applets/dde-apps/itemspage.cpp:156-177 | The page sizes after a move: across pages one less on the source and one more on the first page from the target on that is then not full, and the empty pages gone if the item was alone on its page; on one page they stay |
| PageSizes.MoveItemSizes | applets/dde-apps/itemspage.cpp:275-284 | The same for moveItem, which drops no page |
| GroupDrops.DropSide | applets/dde-apps/itemspage.cpp:156-177 | On which side of the target the item ends up: behind it on the same page when moving right or when asked to, in front of it otherwise |
| ItemsPages.ItemsPage.MoveItem | applets/dde-apps/itemspage.cpp:275-284 | Taking out and inserting again, on one page or across pages |
| Pages.RemoveItemRefines | applets/dde-apps/itemspage.cpp:179-197 | Exactly the first occurrence goes, and the emptied page if asked |
| ItemsPages.ItemsPage.RemoveItem | applets/dde-apps/itemspage.cpp:179-197 | Does so in place and reports whether the item was there |
| PageSizes.RemoveItemExactly | applets/dde-apps/itemspage.cpp:179-197 | The item leaves the first page that has it, by its first occurrence there; that page goes if asked and the item was alone on it; the other pages stay as they are |
| ItemsPages.ItemsPage.RemoveItemsNotIn | applets/dde-apps/itemspage.cpp:199-210 | The backward loop keeps exactly the listed and internal items, in order, with no empty page |
| PageSizes.NarrowedExactly | applets/dde-apps/itemspage.cpp:199-210 | What stays of a page stays on it, and exactly the pages of which nothing stays go |
| Pages.WithoutEmptyPagesMeaning | applets/dde-apps/itemspage.cpp:212-220 | Dropping empty pages keeps the flat list and the bounds |
| PageSizes.WithoutEmptyPagesExactly | applets/dde-apps/itemspage.cpp:212-220 | Exactly the pages with items stay, unchanged and in order |
| Pages.FindMeaning | applets/dde-apps/itemspage.cpp:223-233 | The position found is that of the first occurrence in the flat list; nothing is found if and only if there is none |
| ItemsPages.ItemsPage.FindItem | applets/dde-apps/itemspage.cpp:223-233 | The loop finds it, and -1 means absent |
| GroupItems.FindItemMeaning | applets/dde-apps/appgroupmanager.cpp:54-70 | The lookup reports folder id, page and index of the first occurrence in the first group that holds the item, or nothing |
| GroupItems.ReportedMissingIff | applets/dde-apps/appgroupmanager.cpp:54-70 | An item counts as missing if and only if no group holds it or the first one that does has a folder id that reads as -1 |
| GroupSync.SyncExactly | applets/dde-apps/appgroupmanager.cpp:241-280 | What a synchronisation leaves: the surviving folders with what is to stay, in order, and a top level with its old items and each missing application once, less one first occurrence per removed folder's name, as far as they stay |
| GroupSync.SyncCount | applets/dde-apps/appgroupmanager.cpp:241-280 | How often any item is there afterwards |
| GroupItems.NewItemsOrder | applets/dde-apps/appgroupmanager.cpp:251-263 | The top level gains the missing applications in the order in which the applications model first lists them |
| GroupSync.SyncKeepsIff | applets/dde-apps/appgroupmanager.cpp:241-280 | A displayable application is there afterwards if and only if a folder holds it or the top level with its new items holds it more often than folders of its name are removed |
| GroupSync.SyncLosesIff | applets/dde-apps/appgroupmanager.cpp:241-280 | From a duplicate-free arrangement it is lost if and only if a removed folder bears its id and no folder holds it |
| GroupSync.SyncComplete | applets/dde-apps/appgroupmanager.cpp:241-280 | In particular every displayable application is in some group when no group carries its name |
| GroupSync.LostExample | applets/dde-apps/appgroupmanager.cpp:270-275 | An arrangement in which one is lost |
| GroupSync.SyncSound | applets/dde-apps/appgroupmanager.cpp:241-280 | What remains is a displayable application or internal, page bounds hold and no page is empty |
| GroupSync.SyncDuplicateFreeIff | applets/dde-apps/appgroupmanager.cpp:241-280 | A duplicate-free arrangement stays so if and only if no displayable application sits in a group that reads as -1, unless a removed folder bears its name |
| GroupSync.SyncDuplicateFree | applets/dde-apps/appgroupmanager.cpp:241-280 | In particular when no group reads as -1 |
| GroupSync.DoubledExample | applets/dde-apps/appgroupmanager.cpp:259-262 | An arrangement in which an application is there twice afterwards |
| GroupSync.SyncOrder | applets/dde-apps/appgroupmanager.cpp:241-280 | Groups keep their order; one goes if and only if nothing it holds is to stay and its folder id is not 0; each survivor keeps exactly its items that stay, in order and each on its page, and the top level is as stated above |
| GroupSync.ZeroFoldersStay | applets/dde-apps/appgroupmanager.cpp:270-275 | When every folder id reads as 0, no group is ever removed |
| AppGroupManagers.AppGroupManager.OnReferenceModelChanged | applets/dde-apps/appgroupmanager.cpp:241-280 | The loops over applications and, backwards, over rows compute `Synced` in place |
| GroupJoins.JoinConserves | applets/dde-apps/appgroupmanager.cpp:204-218 | Joining two top-level items adds the new folder's placeholder and conserves every other item's count over all groups; the folder holds the drag, then the drop; other groups and page bounds are kept |
| GroupJoins.JoinLeavesTopLevelIff | applets/dde-apps/appgroupmanager.cpp:204-218 | The two items leave the top level if and only if neither bears the fresh folder's very name |
| GroupJoins.JoinFitsIff | applets/dde-apps/appgroupmanager.cpp:204-218 | The target's page is still in range once the drag has left if and only if the drag is not alone on its page or the target is not on the last one |
| GroupJoins.JoinOutOfRange | applets/dde-apps/appgroupmanager.cpp:204-218 | Two pages for which it is not |
| GroupJoins.JoinInPlaceIff | applets/dde-apps/appgroupmanager.cpp:204-218 | After a join on a duplicate-free top level, its flat list is the old one with the drop replaced by the new folder and the drag taken out if and only if the drop's old page number still names its page, or the next page and the drop was the last on its own and goes to the front there |
| GroupJoins.JoinOutOfPlace | applets/dde-apps/appgroupmanager.cpp:204-218 | Three pages on which the folder is put behind another item instead |
| GroupJoins.JoinedCount | applets/dde-apps/appgroupmanager.cpp:176-218 | For a drag from any group, how often any item is there after a join: the drag once more if the row of its reported number does not hold it, the drop once more if the top level does not, the new folder's placeholder once more |
| GroupJoins.JoinedExactly | applets/dde-apps/appgroupmanager.cpp:176-218 | What a join leaves in each row: the drag is out of the row of its reported number, which goes if that was all it had and it is not the top level; the placeholder is on the top level at the drop's reported position and the drop off it; the new folder, last, holds the drag and then the drop; every other row is unchanged |
| GroupJoins.JoinConservesIff | applets/dde-apps/appgroupmanager.cpp:176-218 | A join adds the placeholder and conserves every count if and only if that row holds the drag and the top level the drop |
| GroupJoins.JoinConservesOwnIff | applets/dde-apps/appgroupmanager.cpp:54-218 | From a duplicate-free arrangement, if and only if the drag was found in the row of its own number and the drop is on the top level |
| GroupJoins.JoinDoublesExample | applets/dde-apps/appgroupmanager.cpp:176-218 | A join out of a folder that the manager named, after which the drag is in two folders |
| GroupJoins.JoinedOnTop | applets/dde-apps/appgroupmanager.cpp:204-218 | For two items of a top level with folder id 0 the general join is the one the lemmas above speak of |
| AppGroupManagers.AppGroupManager.JoinIntoNewFolder | applets/dde-apps/appgroupmanager.cpp:147-218 | Without passing the checks nothing changes; otherwise the drag is removed from the row of its reported number, whichever folder it was found in, and the sequence of removals, the new folder and the insertions computes `Joined` |
| AppGroupManagers.AppGroupManager.DropNextTo | applets/dde-apps/appgroupmanager.cpp:147-175 | For two items reported in the same folder, what stands at the reported positions moves in the row of that number; from a duplicate-free arrangement the drag ends up beside the target there if and only if both were found in that row, and then on the stated side; for two items reported in different folders the result is `DroppedAcross` |
| GroupDrops.InReportedRowIff | applets/dde-apps/appgroupmanager.cpp:54-70 | In a duplicate-free arrangement an item is in the row of its reported number if and only if it was found in that row |
| GroupDrops.ReportedPositionIff | applets/dde-apps/appgroupmanager.cpp:54-70 | And then, and only then, it stands at its reported position there |
| GroupDrops.DropIff | applets/dde-apps/appgroupmanager.cpp:159-165 | A drop in the same folder moves the drag to the drop if and only if both were found in their own row; no other row changes, so an item that was not found there stays where it is |
| GroupDrops.DroppedAcrossCount | applets/dde-apps/appgroupmanager.cpp:166-175 | A drop into another folder adds an occurrence of the drop and takes one of the drag, if the reported row had it; all other counts stay |
| GroupDrops.DroppedAcrossExactly | applets/dde-apps/appgroupmanager.cpp:166-175 | What it leaves in each folder: the source without the first occurrence of the drag, or gone if that was all it had, the target with the drop's id at the reported position, the others unchanged |
| GroupDrops.DroppedAcrossNeverConserves | applets/dde-apps/appgroupmanager.cpp:166-175 | So for no two different items does it conserve the items |
| GroupDrops.MadeFolderIsMistaken | applets/dde-apps/appgroupmanager.cpp:54-70 | An item in a folder that the manager named is looked up on the top level if and only if the number is below 100 or its digits behind the first two are zeros or too large; it is found in its own row if and only if those digits are the row number |
| GroupDrops.WrongItemsMoved | applets/dde-apps/appgroupmanager.cpp:147-165 | A drop inside such a folder that moves two other items |
| GroupIds.FreshNumberMeaning | applets/dde-apps/appgroupmanager.cpp:371-385 | The least number whose name no group uses, found after at most row count + 1 probes |
| AppGroupManagers.AppGroupManager.AssignGroupId | applets/dde-apps/appgroupmanager.cpp:371-385 | The counting loop terminates with that name |
| GroupIds.ParseGroupIdIff | applets/dde-apps/appgroup.cpp:50-65 | A folder's number survives the trip through its name if and only if it is 0 |
| GroupIds.MadeGroupFolderId | applets/dde-apps/appgroup.cpp:60-65 | The folder id read from a name that the manager chose: the digits behind the first two, if there are any and they fit an int, else 0 |
| GroupIds.MadeGroupIsTopLevelIff | applets/dde-apps/appgroup.cpp:60-65 | It is 0 if and only if the number is below 100, or those digits are zeros or too large |
| GroupStorage.StoreRoundTripIff | applets/dde-apps/appgroupmanager.cpp:327-369 | Loading a stored value and saving it again is the identity if and only if it is not empty, every group is named and every page holds between one item and the maximum |
| GroupStorage.SaveThenLoadIff | applets/dde-apps/appgroupmanager.cpp:327-369 | Saving and loading into a fresh manager is the identity on id, name and pages if and only if no group is nameless and no page empty |
| GroupStorage.SyncedIsStorable | applets/dde-apps/appgroupmanager.cpp:241-369 | What a synchronisation leaves behind always survives saving and loading |
| GroupStorage.LoadedExactly | applets/dde-apps/appgroupmanager.cpp:327-354 | Loading makes one row for each record, in order, with its name, its pages cut to size and its id, or the name that is free then; from an empty configuration comes a top level named internal/group/0, which reads as folder 0 and holds 12 items a page |
| GroupStorage.EachPageAlone | applets/dde-apps/appgroup.cpp:16-28 | Each stored page is cut on its own, and the pages made from it follow each other |
| AppGroupManagers.AppGroupManager.LoadAppGroupInfo | applets/dde-apps/appgroupmanager.cpp:327-354 | The loop builds `Loaded`, naming nameless groups afresh, and makes sure of a top level |
| AppGroupManagers.AppGroupManager.SaveAppGroupInfo | applets/dde-apps/appgroupmanager.cpp:356-369 | The stored value holds id, name and pages of every row, and nothing else changes |
| PluginForest.DepthBounded | frame/pluginloader.cpp:371-403 | Below a plugin on no parent cycle, no chain is as long as the plugin list |
| PluginForest.WalkEndsIff | frame/pluginloader.cpp:371-403 | The depth of the recursion over children is bounded if and only if the start is not its own ancestor |
| PluginForest.SiblingsApart | frame/pluginloader.cpp:371-391 | Different children of a plugin have no descendant in common |
| PluginForest.AttachedIff | frame/pluginloader.cpp:257-275 | An installed plugin is reached from the root plugins if and only if neither it nor any ancestor names the reserved root as its parent or lies on a cycle |
| PluginForest.ChildOfReservedRootIsLost | frame/pluginloader.cpp:257-275 | In particular a plugin naming the reserved root as its parent is neither a root plugin nor below one |
| PluginForest.LostPlugins | frame/pluginloader.cpp:257-275 | A plugin list with one lost in each way |
| PluginLoaders.DPluginLoader.WalkForest | shell/main.cpp:34-41 | For any plugin map that does not claim the reserved root, cyclic or not, the walk from the root plugins terminates and visits exactly the plugins whose parent chain reaches one, each once, a plugin before everything below it and siblings in the order of the map |
| PluginLoaders.DPluginLoader.Walk | shell/appletloader.cpp:246-267 | The recursion below one plugin visits exactly its descendants, each once, in the same order |
| PluginOrder.VisitedOneWay | shell/main.cpp:34-41 | No two plugins that the walk reaches come before each other in that order |
| PluginLoaders.DPluginLoader.RootPlugins | frame/pluginloader.cpp:257-275 | The loop collects the root plugins |
| PluginLoaders.DPluginLoader.ChildrenPlugin | frame/pluginloader.cpp:371-391 | The loop collects the plugins whose parent link names the id |
| PluginForest.ChildrenExactly | frame/pluginloader.cpp:371-391 | They are the plugins with that parent link, in the order of the map |
| PluginLoaders.DPluginLoader.InitPlugins | frame/pluginloader.cpp:64-97 | The map ends up, in key order, with exactly the first file for each id among the first files of their directories, leaving out invalid metadata and disabled plugins |
| PluginLoaders.OfNewDirsExactly | frame/pluginloader.cpp:64-97 | The files considered are, in order, those with no earlier file in their directory |
| PluginLoaders.ConsideredExactly | frame/pluginloader.cpp:64-97 | The search paths are taken one after the other, each on its own |
| AppletLoaders.DAppletLoader.Exec | shell/appletloader.cpp:110-122 | Whatever load and init return: it terminates; every applet created is loaded once, all loads precede all inits, and loads, inits and root objects each come in depth-first order, earlier children first; a loaded containment gets a child for each child plugin of its plugin, in order, or, if its group list is not empty, for each admitted entry of that, and no other applet gets any; root objects are asked for exactly the applets that loaded and whose plugin has a url, each once; init runs on exactly the applets that loaded and whose parent was initialised, once; a child stays listed if and only if neither of its steps failed |
| AppletLoaders.DAppletLoader.CreateRootObject | shell/appletloader.cpp:220-230 | The recursion asks for root objects in preorder of the listed applets, passing over those whose plugin has no url |
| AppletLoaders.DAppletLoader.DoCreateRootObject | shell/appletloader.cpp:130-134 | One applet's root object is asked for, unless its plugin has no url |
| AppletOrder.PreorderInOrder | shell/appletloader.cpp:220-230 | The walk meets an applet before everything below it, and an earlier child with all below it before a later one |
| AppletOrder.BeforeOneWay | shell/appletloader.cpp:202-244 | No two applets come before each other in that order, so it leaves one possible sequence of loads, of inits and of root objects |
| AppletLoaders.ConfiguredExactly | shell/appletloader.cpp:58-69 | The children an applet is to have: without a configured list, one for each child plugin of its plugin, in order and without a list of their own; else the admitted entries of its list, in order |
| AppletLoaders.AdmittedIff | frame/containment.cpp:34-63 | Below an applet of an installed plugin, exactly its installed child plugins are admitted |
| AppletTree.PreorderMeaning | shell/appletloader.cpp:220-230 | That preorder meets the applet and everything listed below it, each once |
| AppletTree.InitNeedsAllAncestors | shell/appletloader.cpp:232-244 | An applet is initialised only after the loads and inits of all its ancestors up to the loader's applet returned true |
| AppletLoaders.DAppletLoader.Load | shell/appletloader.cpp:202-218 | The recursion loads the applet and everything created below it, touches nothing else, and ends because only child plugins are admitted |
| AppletLoaders.DAppletLoader.CreateChildren | shell/appletloader.cpp:187-200 | Exactly the admitted entries of the group list become children, in order; an empty group list stands for all child plugins |
| AppletLoaders.DAppletLoader.DoLoad | shell/appletloader.cpp:155-169 | A failed load takes the applet off its parent's list |
| AppletLoaders.DAppletLoader.DoInit | shell/appletloader.cpp:171-185 | So does a failed init |
| AppletLoaders.DAppletLoader.Init | shell/appletloader.cpp:232-244 | The recursion initialises only below the applet, and calls init on every listed child of each applet whose init succeeded |
| AppletLoaders.AllInited | shell/appletloader.cpp:232-244 | Since every listed child is visited and only failures are unlisted, init was called on exactly the loaded applets whose parent was initialised |
| AppletLoaders.DAppletLoader.CreateApplet | frame/containment.cpp:34-63 | A child is created if and only if its plugin is known and, below any applet but the root, a child plugin of its parent's |
| AppletTree.UnlistedShape | frame/containment.cpp:65-76 | Removing an applet unlists it alone and keeps the tree |
| AppletBridges.Applets | frame/appletbridge.cpp:24-43 | The queue loop terminates on every applet tree and returns exactly the listed applets below the root with the plugin id, each once, less deep ones first and those of one level in the order of their branches |
| AppletBridges.LevelBeforeOneWay | frame/appletbridge.cpp:24-43 | No two applets come before each other in that order |
| WindowOverlap.X11DockHelper.ValidMeansFresh | panels/dock/x11dockhelper.cpp:531-544 | The last announced value is the aggregate computed afresh from the rectangles |
| WindowOverlap.X11DockHelper.AnnouncedIff | panels/dock/x11dockhelper.cpp:461-544 | In pixels: true was announced last if and only if the desktop is not shown and some known window is not minimised and shares a pixel with the dock |
| WindowOverlap.X11DockHelper.UpdateWindowHideState | panels/dock/x11dockhelper.cpp:461-478 | One window's flag is recomputed, with an announcement when and only when it changed |
| WindowOverlap.X11DockHelper.UpdateDockArea | panels/dock/x11dockhelper.cpp:480-524 | A new dock area leaves all flags right, in whatever order the windows are visited; something is announced if and only if a flag changed; the announced value is right afterwards if and only if it was before or something was announced |
| WindowOverlap.X11DockHelper.OnWindowClientListChanged | panels/dock/x11dockhelper.cpp:402-424 | Known windows are exactly the listed ones not skipped, new ones with the server's state, and flags and announcement stay right; if a known window is gone, the announcement is right afterwards, even after a stale one |
| WindowOverlap.X11DockHelper.OnWindowMinimizedChanged | panels/dock/x11dockhelper.cpp:434-444 | The same for a minimise event, from any state with right flags, no other window changes, and there is one announcement if and only if the flag changed |
| WindowOverlap.X11DockHelper.OnWindowGeometryChanged | panels/dock/x11dockhelper.cpp:446-452 | The same for a geometry event |
| WindowOverlap.X11DockHelper.OnShowingDesktopChanged | panels/dock/x11dockhelper.cpp:641-647 | Showing the desktop announces the right value again, once, even after a stale one |
| WindowOverlap.X11DockHelper.OnHideModeChanged | panels/dock/x11dockhelper.cpp:361-400 | After a mode change the announced value is right if and only if it was false or some window overlaps |
| WindowOverlap.StaleAfterModeChange | panels/dock/x11dockhelper.cpp:361-400 | Two mode changes and an event after which the announced value is wrong |
| WindowOverlap.IntersectsIffSharedPixel | panels/dock/x11dockhelper.cpp:461-478 | Two rectangles intersect if and only if some pixel lies in both |
| ObjectPath.EscapeToObjectPath | panels/dock/taskmanager/globals.h:56-74 | The loop of global replacements over the matches computes `Escape` |
| ObjectPath.UnescapeFromObjectPath | panels/dock/taskmanager/globals.h:76-87 | The scan with its index jumps and global replacements computes `Unescape` |
| ObjectPath.UnescapeOne | panels/dock/taskmanager/globals.h:76-87 | Text without an underscore is left alone, and a single escape in such text is decoded where it stands |
| ObjectPath.DecodedDigits | panels/dock/taskmanager/globals.h:76-87 | Two hexadecimal digits, in either case, give the character of that code |
| ObjectPath.EscapedElsewhere | panels/dock/taskmanager/globals.h:56-74 | The escapes of the characters outside 0x10 to 0x7f: one digit below, eight up to 0xff, and that of 0 beyond |
| ObjectPath.EscapeIsPerCharacterIff | panels/dock/taskmanager/globals.h:56-74 | For characters 0x10 to 0x7f, the replacements equal per-character escaping if and only if there is at most one underscore and no other special character stands before it |
| ObjectPath.EscapeIsPerCharacter | panels/dock/taskmanager/globals.h:56-74 | In particular for every string without an underscore |
| ObjectPath.EscapeRoundTripIff | panels/dock/taskmanager/globals.h:56-87 | For characters 0x10 to 0x7f, unescaping recovers the string if and only if it is not empty, no underscore stands behind another special character, and it does not spell the escape of one of its own special characters |
| ObjectPath.EscapeRoundTrip | panels/dock/taskmanager/globals.h:56-87 | In particular for every non-empty string without an underscore |
| ObjectPath.UnescapeLeading | panels/dock/taskmanager/globals.h:76-87 | With the underscores in front, what comes back is the original with every look-alike escape of its other special characters decoded |
| ObjectPath.RoundTripFails | panels/dock/taskmanager/globals.h:56-87 | Two short strings that do not come back |
| CategoryVotes.ParseBestMatchedCategory | applets/dde-apps/categoryutils.cpp:9-66 | For any tables: Others when nothing else gets a vote; otherwise a category with the most votes, Video when Music and Video both have them, else the first in enumeration order |
| CategoryVotes.BestIgnoresOrder | applets/dde-apps/categoryutils.cpp:9-66 | The result depends on the multiset of names only |
| CategoryVotes.BestIsUnique | applets/dde-apps/categoryutils.cpp:33-65 | Equal counts have one best category |
| CategoryVotes.CountVotes | applets/dde-apps/categoryutils.cpp:12-26 | The nested loops count every vote: a name in the first table votes once, any other for all its categories in the second |
| CategoryVotes.BallotExactly | applets/dde-apps/categoryutils.cpp:12-26 | How many votes a category gets from each name, lower-cased: one from the first table if it has the name, else as many as the second table lists |
| CategoryVotes.MostVoted | applets/dde-apps/categoryutils.cpp:32-40 | The loop finds the first key with the greatest value |
| CategoryVotes.Tied | applets/dde-apps/categoryutils.cpp:42-47 | The loop collects exactly the keys that share it |

## Left out

- DockElements: docked entries of other types than `desktop` and those without a model, the splitting of "type/id" strings, menus, activation, and the `dataChanged` signals.
- Delivery order: a handler runs before the next source change, although the connections are queued.
- DockElements.DockGlobalElementModel.AppInstalled: runs append applications; one in the middle of the applications model is the subject of `DockShifts.InsertAppConsistentIff`, not of runs.
- Joining into an existing folder, which relies on `parseGroupId`, whose result is unreliable (see above).
- AppGroupManagers.AppGroupManager.DropNextTo: needs that the reported folder ids are row numbers, and that the reported positions (the target's page, from another folder) exist in those rows, which the code does not check.
- AppGroupManagers.AppGroupManager.JoinIntoNewFolder: once the checks are passed, needs that the drag's reported folder id is a row number and that the drop's page number is in range on the top level once the drag has left, which the code only asserts.
- GroupJoins.JoinInPlaceIff: for two items of a top level with folder id 0, where nothing bears the new folder's name.
- GroupSync.SyncComplete: for applications that bear a group's id see `GroupSync.SyncKeepsIff` and `GroupSync.SyncLosesIff`.
- GroupSync.SyncDuplicateFree: the exact condition is `GroupSync.SyncDuplicateFreeIff`.
- `ItemsPage` names, signals, `insertItemToPage`, `firstNItems`, and the counting queries: they would only add easy members.
- The whitespace that Qt's `toInt` ignores around a folder number; `findItem` with a folder filter.
- Migration of older launcher configurations.
- AppletLoaders.DAppletLoader.Exec: starts behind the translation pass, which is `PluginLoaders.DPluginLoader.Walk` and touches nothing else.
- AppletLoaders: the engines behind the root objects (whether a plugin has a url is a parameter), deferred deletion, plugin factories (whether a created applet is a containment is arbitrary), and the benchmark and failure signals.
- PluginLoaders.DPluginLoader.Walk: models which plugins the recursion visits and in which order, not the translators it installs.
- WindowOverlap: the workspace handler, degenerate rectangles, and the floating-point scaling of the dock area, which is given.
- ObjectPath: characters outside 0x10 to 0x7f. Below, an escape has one digit, which unescaping does not read back; above, `toLatin1` gives 0 or is sign-extended (`ObjectPath.EscapedElsewhere`). The laws about whole strings do not speak about them.
- CategoryVotes: the contents of the two name tables and of `toLower` are parameters.
- The dock settings' write queue, show and hide decisions, tray plugins, positioning and generated code.
