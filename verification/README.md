# Mango (Go server) — a Dafny model of its core

Mango is a self-hosted manga server. It scans a library of CBZ/CBR archives into a
database of folders and chapters, serves them to a web reader, and downloads new
chapters from provider plugins through a persistent download queue. This project
models the deterministic core of that server in Dafny and proves what the code
promises about it.

The queue tables, the plugin registries, the tag, bad-file and session tables,
and the job registry are maps or sequences of immutable datatypes. Every store
call, HTTP handler and worker step is a pure function from one state to the
next. Goroutines and channels are modelled as atomic steps taken one after
another. I/O, the clock, the network, content hashing and archive decoding are
parameters or abstract predicates.

| module | models |
|---|---|
| `DownloadQueue` | internal/store/download_store.go: the `download_queue` table, with its status transitions, deletes, FIFO fetch and identifier lookup |
| `Downloader` | internal/downloader/worker.go: the global pause flag, the feeder, the worker step, the per-page pause checkpoint, `SanitizeFilename` and the series folder |
| `QueueActions` | internal/api/downloader_handlers.go: the bulk-action router, the chapter-queuing handler and the unknown-provider checks |
| `JobManager` | internal/jobs/manager.go: the maintenance-job registry, the manager-wide running flag, start, finish and panic |
| `NaturalSort` | internal/util/naturalsort.go: `tokenize` and `NaturalSortLess` |
| `ChapterSort` | internal/util/chaptersort.go: chapter-title scanning, key ranges, key selection and `Item.Compare` |
| `ChapterSortExample` | internal/util/chaptersort_test.go: `TestChapterSortSubstrings`, the five names that sort back into reading order |
| `PathValidation` | internal/util/path_validation.go: `SanitizeFolderName` and `SanitizeFolderPath` |
| `Archive` | internal/library/archive.go: the extension classifiers, the page order and the `ParseArchive` dispatch |
| `BadFileDetector` | internal/library/bad_file_detector.go: `contains`, `containsSubstring`, `categorizeError`, the archive walk and the per-file decision of `DetectBadFiles` |
| `Scanner` | internal/library/scanner.go: `LibrarySync`, meaning folder and chapter reconciliation, `prune` and the bad-file bookkeeping |
| `Metadata` | internal/library/metadata.go: `ExtractMetadataFromPath` |
| `FolderStore` | internal/store/folder_store.go: `limitAndOffset*`, `GetFolderPath` and the folder settings |
| `ChapterStore` | internal/store/chapter_store.go: `GetChapterTitle` and `GetChapterNeighbors` |
| `HomeQueries` | internal/store/home_queries.go: the grouping in `GetRecentlyAdded` and the ordering in `GetNextUp` |
| `TagStore` | internal/store/tag_store.go: tag normalisation, adding and removing tags |
| `BadFileStore` | internal/store/bad_file_store.go: the `bad_files` table |
| `UserStore` | internal/store/user_store.go: sessions and their expiry |
| `ListParams` | internal/api/handlers.go: `getListParams` |
| `ResourceProxy` | internal/api/resource_proxy.go: the resource proxy's checks, the Content-Type choice and Cache-Control |
| `SubscriptionService` | internal/subscription/service.go: `CheckSingleSubscription` |
| `Providers` | internal/downloader/providers/registry.go: the provider registry |
| `PluginManifest` | internal/plugins/manifest.go: `LoadManifest` after decoding |
| `PluginManager` | internal/plugins/manager.go and lazy_adapter.go: the discovered, loaded and failed plugin maps |
| `PluginRepository` | internal/plugins/repository_service.go: listing, installing and update checking |
| `PluginApi` | internal/plugins/api.go: `sanitizeFilename` |
| `WeebCentral` | internal/downloader/providers/weebcentral/weebcentral.go: `cleanChapterNumber` |
| `PathUtils` | internal/assets/web/static/js/path-utils.js: `sanitizePath` of the web interface |

The shared modules model the pieces of Go's standard library the core depends on:
- `Strings` covers `strings`, with ASCII case mapping.
- `Paths` covers `path/filepath` on '/'-separated paths.
- `Strconv` covers `strconv.Atoi` and `%d`.
- `Sorting` covers `sort.Slice` with a strict comparator, specified as a permutation with no adjacent inversion.
- `Results` holds `Option` and `Result`.

Go's map iteration order is an explicit sequence argument that must enumerate the map's keys. A property proved for every such sequence therefore holds whatever order the runtime chooses.

## Model

| member | source | states |
|---|---|---|
| PluginManifest.LoadManifest | internal/plugins/manifest.go:29-63 | a read or decode failure and a missing `id` or `api_version` are errors with their messages; otherwise the manifest is complete, every given field kept and the type, entry point and capabilities defaulted to "downloader", "index.js" and an empty map |
| PluginManifest.LoadIsStable | internal/plugins/manifest.go:49-60 | the defaults are applied once: loading a loaded manifest written back gives it unchanged |
| PluginManifest.CompleteManifestsLoad | internal/plugins/manifest.go:43-60 | every complete manifest is exactly what loading its written form gives |
| PluginManifest.MinimalManifest | internal/plugins/manifest.go:43-60 | a manifest with only an id and an API version loads, as a downloader with entry point index.js and no capabilities |
| PluginManager.ValidateApiVersion | internal/plugins/manager.go:584-591 | a version is accepted exactly when it is "1.0"; otherwise the error names both versions |
| PluginManager.DiscoverEntry | internal/plugins/manager.go:120-169 | one directory of the scan: hidden entries, files and directories without plugin.json are skipped; a load or API error is recorded under the path; another plugin type is skipped; an accepted plugin is discovered, its path cleared from the failures, and its id returned for registration |
| PluginManager.Discover | internal/plugins/manager.go:120-169 | the scan keeps every earlier discovery, discovers only the ids it returns, records failures only under scanned paths and never touches the loaded plugins |
| PluginManager.DiscoverSnoc | internal/plugins/manager.go:120-169 | the scan of one more directory is the scan of the others followed by that directory |
| PluginManager.LazyInfo | internal/plugins/lazy_adapter.go:37-67 | the provider entry of a lazy adapter carries the discovered manifest's id, and its name, or the id when the manifest names nothing |
| PluginManager.RegisterLazy | internal/plugins/manager.go:171-183 | registering the discovered ids succeeds exactly when they are pairwise distinct and none is already registered, and then registers exactly those ids besides the old ones |
| PluginManager.LoadPlugins | internal/plugins/manager.go:104-192 | a listing error is returned wrapped in "failed to read plugins directory: ", with the manager unchanged; otherwise the manager is the scan's result, and when registration succeeds every plugin discovered by the scan has a provider |
| PluginManager.SameIdTwicePanics | internal/plugins/manager.go:160-183 | two plugin directories whose manifests carry one id both get discovered, and registering the id twice panics |
| PluginManager.RegisterLazyOnce | internal/plugins/manager.go:180-183 | registration that skips registered ids registers exactly the old and the discovered ids and keeps every old provider |
| PluginManager.RegisterOnceAgrees | internal/plugins/manager.go:180-183 | wherever the original registration does not panic, skipping registered ids gives the same registry |
| PluginManager.DiscoverPlugin | internal/plugins/manager.go:197-243 | errors carry the stage's message and change nothing; an id already discovered only gets its path updated and is not registered again; a new id is discovered, its directory cleared from the failures, and registered |
| PluginManager.DiscoverTwice | internal/plugins/manager.go:197-243 | discovering the same directory a second time leaves the manager as the first time did and registers nothing |
| PluginManager.LoadInternal | internal/plugins/manager.go:247-290 | an error leaves the manager as it was; a load without error either stores nothing or stores exactly the accepted manifest under its own id, which was not loaded before |
| PluginManager.LoadInternalAccepted | internal/plugins/manager.go:253-289 | an accepted manifest whose id is not loaded is stored with the current time, unless creating its runtime fails, whose error is returned |
| PluginManager.LoadPluginIfNeeded | internal/plugins/manager.go:295-330 | a loaded plugin is returned with its last access set to now; an unknown id is "plugin X not found"; a load error is wrapped; a load that stores nothing under the id dereferences nil |
| PluginManager.DiscoveredPluginLoads | internal/plugins/manager.go:295-330 | a discovered plugin whose manifest is still on disk is loaded on first use with the current time, or fails with the runtime's error |
| PluginManager.ChangedTypeCrashes | internal/plugins/manager.go:259-263 | a discovered plugin whose manifest now names another type loads without error but is not stored, and is then dereferenced |
| PluginManager.LoadPluginIfNeededChecked | internal/plugins/manager.go:319-329 | with the stored plugin looked up before use, loading never crashes, and a ready plugin is stored under its id with the current access time |
| PluginManager.CheckedLoadAgrees | internal/plugins/manager.go:295-330 | the checked load answers as the original wherever the original does not crash |
| PluginManager.UnloadPlugin | internal/plugins/manager.go:391-415 | unloading fails exactly for an id that is not loaded; otherwise only that loaded entry goes, and the discovered and failed plugins stay |
| PluginManager.Stop | internal/plugins/manager.go:375-388 | after stopping nothing is loaded, the discovered and failed plugins are kept and exactly the loaded plugins' providers are unregistered |
| PluginManager.IdlePlugins | internal/plugins/manager.go:340-356 | the idle check selects exactly the loaded plugins last used more than the timeout ago, each once |
| PluginManager.UnloadAll | internal/plugins/manager.go:358-371 | unloading a list of ids removes exactly those from the loaded plugins and keeps everything else |
| PluginManager.IdleCheckKeepsRecent | internal/plugins/manager.go:333-372 | after an idle check every plugin still loaded was used within the timeout, every recently used plugin is still loaded, and nothing discovered is lost |
| PluginManager.ReloadPlugin | internal/plugins/manager.go:418-441 | an unknown id is "plugin X not found"; a successful reload leaves the plugin unloaded, to be loaded again on use |
| PluginManager.GetPluginInfo | internal/plugins/manager.go:462-501 | a plugin is reported exactly when it is loaded or discovered, from the loaded entry first, as loaded exactly when it is |
| PluginManager.LoadThenUnloadInfo | internal/plugins/manager.go:391-501 | a plugin loaded on use reports itself loaded; once unloaded it is still reported, as not loaded |
| PluginManager.StopKeepsDiscovered | internal/plugins/manager.go:375-388 | after stopping, every discovered plugin is still reported, as not loaded |
| PluginManager.FailedInfo | internal/plugins/manager.go:547-578 | the row of a failed directory carries its path and error and is never loaded |
| PluginManager.UnloadedIds | internal/plugins/manager.go:527-545 | the discovered ids that are listed are exactly those not loaded, each once |
| PluginManager.LoadedInfos | internal/plugins/manager.go:509-525 | the loaded rows are loaded, without error, one per loaded id in order |
| PluginManager.DiscoveredInfos | internal/plugins/manager.go:527-545 | the discovered rows are not loaded, without error, one per id in order |
| PluginManager.FailedInfos | internal/plugins/manager.go:547-578 | the failed rows are not loaded and carry each directory's recorded error, one per path in order |
| PluginManager.ListPlugins | internal/plugins/manager.go:504-581 | the loaded plugins come first and are the only rows marked loaded, and the failed directories close the list, each with its recorded error |
| PluginManager.ListPluginsOncePerPlugin | internal/plugins/manager.go:504-581 | the list names each loaded or discovered plugin exactly once, loaded exactly when it is, and then each failed directory exactly once with its error |
| PluginManager.PluginRowsOncePerPlugin | internal/plugins/manager.go:509-545 | the loaded and discovered rows together name each known plugin exactly once |
| PluginManager.FailedRowsOncePerDirectory | internal/plugins/manager.go:547-578 | the failed rows name each failed directory exactly once, with its error |
| PluginRepository.Compatible | internal/plugins/repository_service.go:76-84 | the filter keeps exactly the plugins whose API version is accepted |
| PluginRepository.CompatibleKeepsOrder | internal/plugins/repository_service.go:76-84 | the filter keeps the manifest's order: two halves filter to the two filtered halves one after the other |
| PluginRepository.AllCompatibleKept | internal/plugins/repository_service.go:76-84 | a manifest of compatible plugins is offered whole |
| PluginRepository.GetAvailablePlugins | internal/plugins/repository_service.go:65-85 | a missing repository and a failed fetch are errors with their messages; otherwise the answer holds exactly the manifest's plugins with an accepted API version |
| PluginRepository.FindPlugin | internal/plugins/repository_service.go:101-114 | the search finds nothing exactly when no plugin has the id, and otherwise the first plugin with it |
| PluginRepository.EntryUrl | internal/plugins/repository_service.go:151 | the entry URL starts with the download URL less one trailing '/' and ends with '/' and the entry point |
| PluginRepository.TrailingSlashIgnored | internal/plugins/repository_service.go:151 | a download URL with or without a trailing '/' gives the same entry URL |
| PluginRepository.EntryPoint | internal/plugins/repository_service.go:146-148 | an empty entry point becomes index.js and any other is kept |
| PluginRepository.Tracked | internal/plugins/repository_service.go:172-180 | the tracked row records the plugin id and the installed version, and the repository exactly when its id is positive |
| PluginRepository.Chosen | internal/plugins/repository_service.go:101-119 | the plugin an installation gets past the checks with has the requested id and an accepted API version and is in the manifest |
| PluginRepository.InstallPlugin | internal/plugins/repository_service.go:88-183 | the directory is created exactly when the repository, the manifest, the plugin and its API version all check out and MkdirAll succeeds; a missing plugin and an incompatible API fail with their messages before anything is created or downloaded |
| PluginRepository.InstallFiles | internal/plugins/repository_service.go:127-182 | after the directory exists: the directory is removed exactly when both files were written and the load failed; the install succeeds exactly when both files were written and the load succeeded, and then tracks its row; the entry point is fetched from the entry URL only after plugin.json was fetched, written and decoded |
| PluginRepository.InstalledIsAvailable | internal/plugins/repository_service.go:65-183 | a plugin that installs is one the repository offers as available, and its row records its version |
| PluginRepository.RejectedBeforeDirectory | internal/plugins/repository_service.go:101-119 | a plugin absent from the manifest or asking for another API version fails with no directory, no download and no tracked row |
| PluginRepository.InstalledMap | internal/plugins/repository_service.go:197-201 | the map holds exactly the installed ids, each mapped to its last row |
| PluginRepository.RepoUpdates | internal/plugins/repository_service.go:213-248 | a repository reports exactly its plugins that are installed, from it or from no recorded repository, API-compatible and strictly newer |
| PluginRepository.UpdatesOver | internal/plugins/repository_service.go:205-249 | every reported update is marked as an update of an installed plugin, from its installed version to a strictly newer one |
| PluginRepository.UpdatesExactly | internal/plugins/repository_service.go:205-249 | an update is reported exactly for a plugin that passes every check in a repository whose manifest could be fetched |
| PluginRepository.UpdatesKeepOrder | internal/plugins/repository_service.go:205-249 | the repositories are checked in order: the updates of two lists are the first's then the second's |
| PluginRepository.FailingRepositorySkipped | internal/plugins/repository_service.go:206-211 | a repository that cannot be fetched is skipped and the check goes on with the others |
| PluginRepository.OtherRepositoryIgnored | internal/plugins/repository_service.go:219-222 | a plugin installed from another repository is never reported for this one |
| PluginRepository.CheckForUpdates | internal/plugins/repository_service.go:186-252 | a store error is returned with its message; otherwise every update is marked, belongs to an installed plugin and offers a strictly newer version |
| PluginRepository.NewerVersionReported | internal/plugins/repository_service.go:186-252 | a plugin installed at 1.0.0 from a repository that offers a newer version is reported once, with both versions |
| PluginApi.SanitizeFilename | internal/plugins/api.go:374-382 | the name keeps its length and every character except the nine rejected ones, each of which becomes '-', so no rejected character is left |
| PluginApi.SanitizeIdempotent | internal/plugins/api.go:374-382 | sanitising a sanitised name changes nothing |
| PluginApi.SanitizeFixedPoints | internal/plugins/api.go:374-382 | a name is kept unchanged exactly when it has no rejected character |
| Providers.Register | internal/downloader/providers/registry.go:12-19 | registering fails exactly when the id is taken, with the panic's message; otherwise exactly that provider is added and the others kept |
| Providers.Get | internal/downloader/providers/registry.go:22-25 | a provider is found exactly when its id is registered |
| Providers.GetAll | internal/downloader/providers/registry.go:28-34 | the list holds every registered provider exactly once |
| Providers.RegisterThenGet | internal/downloader/providers/registry.go:12-25 | a provider just registered is found under its id |
| ResourceProxy.InferContentType | internal/api/resource_proxy.go:139-165 | the inferred type is always a non-empty media type without parameters |
| ResourceProxy.FirstMatchAt | internal/api/resource_proxy.go:141-162 | the first extension the URL ends with decides its type |
| ResourceProxy.NoMatch | internal/api/resource_proxy.go:164 | a URL ending in none of the extensions is an octet stream |
| ResourceProxy.FirstMatchOfDistinct | internal/api/resource_proxy.go:141-162 | when no two extensions share their last three characters, the extension a URL ends with is the one that types it, whatever its place in the list |
| ResourceProxy.CasesDiffer | internal/api/resource_proxy.go:141-162 | the source's extensions pairwise differ in their last three characters, so the order of the cases never matters |
| ResourceProxy.CasesEndInLetters | internal/api/resource_proxy.go:141-162 | every extension of the source has at least three characters and ends in a lower-case letter |
| ResourceProxy.NoMatchOfLetters | internal/api/resource_proxy.go:141-164 | a URL that does not end in a lower-case letter matches no extension ending in one |
| ResourceProxy.InferFromExtension | internal/api/resource_proxy.go:139-165 | a URL ending in a known extension, in any letter case, gets that extension's type whatever precedes it |
| ResourceProxy.UnknownEndingIsOctetStream | internal/api/resource_proxy.go:139-165 | a URL whose last character is not a letter, such as one ending in a query value or a '/', is an octet stream |
| ResourceProxy.CleanContentType | internal/api/resource_proxy.go:103-108 | the passed-on type has no parameters, and a header without ';' is kept as it is |
| ResourceProxy.CacheControlFor | internal/api/resource_proxy.go:118-127 | images are cached for a day and everything else, JSON included, for an hour |
| ResourceProxy.ProxyResource | internal/api/resource_proxy.go:23-136 | a missing URL, an unparsable URL and a scheme other than http or https are refused with 400 and their messages; the resource is proxied exactly when the URL passes these checks and the upstream answers 200; a failed fetch and a non-200 answer are 502s with their messages; a proxied answer has a parameter-free type and the cache time that type calls for |
| ResourceProxy.MissingTypeInferred | internal/api/resource_proxy.go:109-112 | an upstream answer without a Content-Type is typed from the URL |
| ResourceProxy.CharsetDropped | internal/api/resource_proxy.go:103-108 | a parameter after ';' is dropped from the upstream type before it is passed on |
| ListParams.GetListParams | internal/api/handlers.go:19-32 | the page is at least 1 and the page size is within 1..100; an unparsable or small page becomes 1, a page size outside 1..100 becomes 100, and the text parameters are passed through |
| ListParams.DecimalPageKept | internal/api/handlers.go:19-23 | a decimal page number that fits in an int64 is used as given |
| ListParams.ParamsSelectWindow | internal/api/handlers.go:19-32 | any request whose last element index fits in an int64 is answered with exactly the requested window of the listing |
| ListParams.HugePagePanics | internal/api/handlers.go:19-27 | a page number beyond the int64 range saturates, and with the default page size the cut of any non-empty listing panics |
| ListParams.HugePageCheckedIsEmpty | internal/api/handlers.go:19-27 | with the checked cut the same request gets an empty page |
| FolderStore.Wrap64 | internal/store/folder_store.go:471-489 | an exact result wrapped into an int64 is congruent to it modulo 2^64 and unchanged when it already fits |
| FolderStore.LimitAndOffset | internal/store/folder_store.go:471-508 | a nil slice stays nil, and otherwise the page is a contiguous run of the list no longer than the page size, or a panic |
| FolderStore.CutIsWindow | internal/store/folder_store.go:471-508 | for a page from 1 and a page size whose end fits in an int64, the cut is exactly that page of the list |
| FolderStore.PagesCoverList | internal/store/folder_store.go:471-508 | walking enough pages shows every element once, in order |
| FolderStore.PageZeroPanics | internal/store/folder_store.go:471-489 | page 0 gives the offset -perPage, which panics on any non-empty list |
| FolderStore.SaturatedPagePanics | internal/store/folder_store.go:471-489 | the largest int64 page with 100 per page wraps the offset round to a negative number and panics |
| FolderStore.LimitAndOffsetChecked | internal/store/folder_store.go:471-508 | the corrected cut never panics, keeps nil as nil and returns at most a page-size run of the list |
| FolderStore.CheckedAgrees | internal/store/folder_store.go:471-508 | the corrected cut equals the original wherever the original's arithmetic cannot wrap |
| FolderStore.GetFolderPath | internal/store/folder_store.go:511-523 | the trail exists exactly when every folder on the way up exists, and is otherwise "folder not found"; it is a parent chain of stored folders that ends with the folder itself, and is empty for an id that is not positive |
| FolderStore.PathIdsIncrease | internal/store/folder_store.go:511-523 | the trail holds each folder once, with ids strictly increasing |
| FolderStore.GetFolderSettings | internal/store/folder_store.go:526-543 | the stored settings of the folder and user, or auto and ascending when none are stored |
| FolderStore.UpdateFolderSettings | internal/store/folder_store.go:546-551 | an update adds the folder and user's key, on conflict replacing the row |
| FolderStore.SettingsRoundTrip | internal/store/folder_store.go:526-551 | settings read back as written for that folder and user, and as before for every other pair |
| Metadata.ExtractMetadataFromPath | internal/library/metadata.go:15-30 | the chapter and series names are non-empty, the chapter name has no separator, and a file directly in the library is given the unknown series |
| Metadata.SeriesFolder | internal/library/metadata.go:15-30 | a file two levels below the library takes its folder as the series and its own name as the chapter |
| Metadata.FileInLibraryRoot | internal/library/metadata.go:23-27 | a file directly in the library belongs to "Unknown Series" |
| Metadata.TrailingSeparatorMissesRoot | internal/library/metadata.go:23-27 | a library path given with a trailing separator never matches, so a file in the library root is named after the library folder |
| DownloadQueue.StatusComplement | internal/store/download_store.go:172-204 | every row has one of the five statuses: those the bulk actions touch and those they leave alone partition the queue |
| DownloadQueue.UpdateStatus | internal/store/download_store.go:151-155 | only the named row changes, to the new status and message with its chapter kept; a missing id changes nothing |
| DownloadQueue.UpdateProgress | internal/store/download_store.go:158-162 | only the named row changes, to the new progress with its chapter kept |
| DownloadQueue.ResetInProgress | internal/store/download_store.go:165-169 | afterwards nothing is in progress, the queued rows are exactly those queued or in progress before, and every other row is untouched |
| DownloadQueue.PauseAll | internal/store/download_store.go:172-176 | afterwards nothing is queued or in progress, the paused rows are exactly those queued, in progress or paused before, and finished and failed rows are untouched |
| DownloadQueue.ResumeAll | internal/store/download_store.go:179-183 | afterwards nothing is paused, the queued rows are exactly those queued or paused before, their progress kept, and every other row is untouched |
| DownloadQueue.ResetFailed | internal/store/download_store.go:186-190 | afterwards nothing has failed, the queued rows are exactly those queued or failed before, the retried ones back at progress 0, and every other row is untouched |
| DownloadQueue.DeleteCompleted | internal/store/download_store.go:193-197 | exactly the completed rows go and the rest are kept as they were |
| DownloadQueue.EmptyQueue | internal/store/download_store.go:200-204 | exactly the in-progress and completed rows survive, unchanged |
| DownloadQueue.DeleteItem | internal/store/download_store.go:207-210 | exactly the named row goes, whatever its status, and a missing id is not an error |
| DownloadQueue.PauseItem | internal/store/download_store.go:213-226 | pausing fails exactly for a missing id, with its message; otherwise only that row becomes paused by the user, whatever its status was |
| DownloadQueue.ResumeItem | internal/store/download_store.go:229-242 | resuming fails exactly for a missing id; otherwise only that row becomes queued, its progress kept |
| DownloadQueue.RetryItem | internal/store/download_store.go:245-258 | retrying succeeds exactly for a failed row, which becomes queued again with nothing else changed; anything else is "not found or not in a failed state" |
| DownloadQueue.GetItem | internal/store/download_store.go:135-148 | a row is found exactly when its id is in the queue |
| DownloadQueue.QueuedItems | internal/store/download_store.go:110-132 | at most `limit` distinct queued rows, oldest first; when fewer than the limit come back all queued rows do, and every queued row left out is no older than every row returned |
| DownloadQueue.QueuedRows | internal/store/download_store.go:110-132 | the rows the query selects are exactly the queued ones, each once |
| DownloadQueue.AllItems | internal/store/download_store.go:85-107 | the whole queue, each row once, newest first |
| DownloadQueue.IdentifiersInQueue | internal/store/download_store.go:351-368 | the identifiers returned are exactly those of the rows of that series and provider |
| DownloadQueue.AddChapters | internal/store/download_store.go:25-50 | the old rows are kept, every new row is one of the given chapters for that series and provider with the default status, and with no row ignored by the schema one row is added per chapter |
| DownloadQueue.AddChaptersInOrder | internal/store/download_store.go:25-50 | with no row ignored by the schema, the chapters are inserted in the given order under consecutive ids from the next free one, each with the defaults and the insertion time, and no other row is added |
| QueueActions.HandleQueueAction | internal/api/downloader_handlers.go:100-125 | the answer is 200 "success" exactly for a well-formed action the router knows, and otherwise a 400 with "Invalid request payload" or "Invalid action" that changes nothing; pause_all is the paused feeder over PauseAll of the queue, resume_all the running feeder over ResumeAll, retry_failed ResetFailed and delete_completed DeleteCompleted, nothing else changing |
| QueueActions.PauseThenResumeRequeues | internal/api/downloader_handlers.go:109-115 | pause_all then resume_all leaves the feeder running and every waiting, running or paused row queued with its chapter and progress, completed and failed rows untouched |
| QueueActions.EmptyQueueActionRejected | internal/api/downloader_handlers.go:100-125 | the empty_queue action the web client posts is answered 400 "Invalid action" and changes nothing |
| QueueActions.PauseAllStopsFeeder | internal/downloader/worker.go:48-70 | pause_all stops the feeder as well as pausing the rows; after resume_all the feeder runs again, and with an empty channel its next tick takes the oldest queued row of the resumed queue |
| QueueActions.PauseAllMissesBufferedJob | internal/downloader/worker.go:73-96 | a job already waiting in the channel when pause_all arrives is still taken by the worker and marked in progress, although its row was paused |
| QueueActions.HandleAddChapters | internal/api/downloader_handlers.go:68-89 | a malformed body and an empty chapter list are 400s with their messages and change nothing; the answer is 202 exactly when the list is non-empty and the store succeeds, and then the queue is the store's AddChapters result, one row more per chapter when no row is ignored; a store failure is a 500 that changes nothing |
| QueueActions.HandleProviderCall | internal/api/downloader_handlers.go:22-59 | an unknown provider is a 404 before the provider is called; the answer is 200 with the provider's result exactly when the provider is known and answers, and a provider error is a 500 |
| SubscriptionService.NewChapters | internal/subscription/service.go:93-106 | the chapters kept are exactly those not yet queued and published strictly after the cut-off time |
| SubscriptionService.NewChaptersKeepOrder | internal/subscription/service.go:93-106 | the filter keeps the provider's order: two halves of a list filter to the two filtered halves, one after the other |
| SubscriptionService.ToSet | internal/subscription/service.go:85-88 | the set holds exactly the queued identifiers |
| SubscriptionService.Refs | internal/subscription/service.go:109-114 | one queue entry per new chapter, in order, with its identifier and title |
| SubscriptionService.CheckSingleSubscription | internal/subscription/service.go:59-121 | an unknown subscription, an unknown provider and a failed chapter fetch change nothing; otherwise the last check is set to now, old queue rows are kept, every added row is for this series and provider and names a listed chapter that was not queued and was published after the last check (or after the subscription was created when it was never checked), and, when the schema ignores no row, every such new chapter is queued and nothing more |
| SubscriptionService.NewRowsAreFresh | internal/subscription/service.go:93-114 | every row the check adds names a new chapter of the subscription's series |
| SubscriptionService.NewChaptersQueued | internal/subscription/service.go:103-108 | when the schema ignores no row, each new chapter gets a queue row of its own with the defaults, and the queue grows by exactly the number of new chapters |
| SubscriptionService.OnlyLaterChapterQueued | internal/subscription/service.go:59-121 | subscribed an hour ago, with one chapter published two hours ago and one an hour ahead, only the later chapter is queued and the check time is recorded |
| PathUtils.SanitizePath | internal/assets/web/static/js/path-utils.js:36-56 | an empty path gives null; any result is non-empty, does not start with '.', has no forbidden character and uses only characters of the input |
| PathUtils.CharsSurvive | internal/assets/web/static/js/path-utils.js:40-51 | every character left after the cleaning steps comes from the input and is allowed |
| PathUtils.PlainCharacterKept | internal/assets/web/static/js/path-utils.js:40-53 | a character that is not white space, '/', '.' or forbidden is never removed, so the result is not null and contains it |
| PathUtils.BlankGivesNone | internal/assets/web/static/js/path-utils.js:40-43 | a path of white space only gives null |
| PathUtils.SlashesGiveNone | internal/assets/web/static/js/path-utils.js:40-43 | a path of slashes only gives null |
| PathUtils.CleanedUnchanged | internal/assets/web/static/js/path-utils.js:40-48 | trimming, collapsing and removing leave alone a path that is trimmed, has no '/' at either end, no "//" and no forbidden character |
| PathUtils.CleanPathUnchanged | internal/assets/web/static/js/path-utils.js:36-56 | such a path that also does not start with '.' comes back unchanged |
| PathUtils.ParentPathBecomesAbsolute | internal/assets/web/static/js/path-utils.js:51 | cutting the leading dots of "../etc" leaves "/etc", an absolute path |
| PathUtils.NotIdempotent | internal/assets/web/static/js/path-utils.js:40-51 | removing a control character can expose a leading space, so sanitising twice differs from sanitising once |
| PathUtils.SanitizePathRelative | internal/assets/web/static/js/path-utils.js:36-56 | the corrected sanitiser keeps every promise of the original and its result never starts with '/' |
| PathUtils.ParentPathStaysRelative | internal/assets/web/static/js/path-utils.js:51 | the corrected sanitiser cuts "../etc" to "etc" |
| PathUtils.RelativeAgrees | internal/assets/web/static/js/path-utils.js:36-56 | the corrected sanitiser answers as the original wherever the original's answer is null or does not start with '/' |
| Downloader.NumWorkers | internal/downloader/worker.go:31 | `math.Min(1, NumCPU)` is 1 on every machine, so there is one worker and a channel of one |
| Downloader.PauseDownloads | internal/downloader/worker.go:292 | pausing sets the flag and nothing else |
| Downloader.ResumeDownloads | internal/downloader/worker.go:293-298 | resuming clears the flag and nothing else |
| Downloader.Start | internal/downloader/worker.go:36-46 | at startup no row is left in progress, no row is lost, and the feeder starts unpaused with an empty channel and an idle worker |
| Downloader.FeederTick | internal/downloader/worker.go:48-70 | a paused feeder or a non-empty channel does nothing; otherwise the channel receives the oldest queued row as read, one row since there is one worker, no queued row being older, and stays empty exactly when no row is queued |
| Downloader.Snapshot | internal/downloader/worker.go:58-64 | every job sent is a stored row with the contents it had when read |
| Downloader.NothingFetchedOnlyWhenNoneQueued | internal/downloader/worker.go:57-64 | the feeder fetches nothing exactly when no row is queued |
| Downloader.Fail | internal/downloader/worker.go:84-87 | a failed download leaves the worker idle and the row failed with "Download failed: " and the reason, every other row untouched |
| Downloader.Receive | internal/downloader/worker.go:73-110 | taking a job marks it in progress and starts the download, unless its provider is unknown, its page listing fails or it has no pages, which fail it at once; no other row changes |
| Downloader.Page | internal/downloader/worker.go:116-221 | before each page the row is read again: a paused row ends the download with its status untouched; otherwise a failed fetch fails the row and a fetched page advances the progress to the whole percentage done (exactly, see "## Left out"), no other row changing |
| Downloader.Percent | internal/downloader/worker.go:208-209 | the progress after `done` of `total` pages is the largest whole percentage not above the exact share, between 0 and 100, and 100 exactly when every page is done |
| Downloader.Finish | internal/downloader/worker.go:87-95 | after the last page the row becomes completed and a library sync is requested when the archive is saved, and failed otherwise, whatever status a late pause gave it |
| Downloader.Pages | internal/downloader/worker.go:117-222 | running the page loop never adds or removes queue rows |
| Downloader.AllPagesFetched | internal/downloader/worker.go:117-222 | with no pause and every page fetched, the loop fetches every page and leaves the row in progress at 100% |
| Downloader.BufferedJobIgnoresPause | internal/downloader/worker.go:73-77 | a job paused while waiting in the channel is still marked in progress and started when the worker takes it |
| Downloader.PauseQueueItem | internal/downloader/worker.go:302-319 | a missing row fails with the store's message; otherwise the queue is the store's PauseItem result: that row is paused with "Paused by user" and its progress kept, every other row is unchanged, and the notice carries the progress |
| Downloader.ResumeQueueItem | internal/downloader/worker.go:322-339 | a missing row fails with the store's message; otherwise the queue is the store's ResumeItem result: that row is queued with "Resumed by user" and its progress kept, every other row is unchanged, and the notice carries the progress |
| Downloader.SanitizeFilename | internal/downloader/worker.go:277-289 | the file name is always clean, and a name that is already clean is kept |
| Downloader.SanitizeFilenameMeaning | internal/downloader/worker.go:277-289 | the result is the name from its first character that is not a dot, a dash or one of `\x00 \ / : * ? " < > \|` on, with each of those ten unsafe characters replaced by '-'; it is "untitled" exactly when no such character exists |
| Downloader.FirstKept | internal/downloader/worker.go:281-283 | the index where the strip loop stops: every earlier character is a dot, a dash or an unsafe character, and the one there is none of them |
| Downloader.TrimLeftAt | internal/downloader/worker.go:281-283 | removing leading characters one at a time while they are cut leaves exactly the suffix from the first character that is not cut |
| Downloader.SanitizeFilenameIdempotent | internal/downloader/worker.go:277-289 | sanitising a sanitised name changes nothing |
| Paths.NonEmptyParts | internal/downloader/worker.go:249 | the non-empty parts in order, which are the elements `filepath.Join` joins before it cleans the result |
| Downloader.SeriesFolder | internal/downloader/worker.go:238-261 | every path element joined below the library is non-empty and of safe characters, and without a custom folder path there is at most one; the join's cleaning of "." and ".." is not applied |
| Downloader.SeriesTitleLeavesLibrary | internal/downloader/worker.go:259-260 | a series called "-..-" is saved in the library's parent directory |
| Downloader.CustomFolderLeavesLibrary | internal/downloader/worker.go:238-250 | so is a series whose custom folder path is "-..-" |
| Downloader.SafeSeriesFolder | internal/downloader/worker.go:238-261 | with the corrected folder name no directory is "." or "..", so a chapter never leaves the library |
| Downloader.SafeComponents | internal/downloader/worker.go:241-248 | every corrected custom path component is safe and neither "." nor ".." |
| Archive.IsImageFile | internal/library/archive.go:24-36 | a name is an image exactly when, ignoring case, it ends in .jpg, .jpeg, .png, .gif, .bmp, .tiff or .webp |
| Archive.IsSupportedArchive | internal/library/archive.go:39-50 | a name is an archive exactly when, ignoring case, it ends in .cbz, .zip, .cbr, .rar, .7z or .cb7 |
| Archive.EndsInOneOfIndex | internal/library/archive.go:24-50 | a name ends in one of the listed extensions exactly when some entry of the list is a suffix of it |
| Archive.ExtInBySuffix | internal/library/archive.go:24-50 | looking up the lower-cased extension in a set of extensions is asking whether the lower-cased name ends in one of them |
| Archive.GetArchiveType | internal/library/archive.go:53-63 | a name has a reader exactly when it is a supported archive, and the zip reader exactly for .cbz and .zip in any case |
| Archive.ExtIgnoresCase | internal/library/archive.go:24-63 | taking the extension and lower-casing commute |
| Archive.ExtOfSuffix | internal/library/archive.go:24-63 | the extension of a name is the text after its last '.' |
| Archive.ClassifiersIgnoreCase | internal/library/archive.go:24-63 | the image test, the archive test and the archive type all ignore the case of the name |
| Archive.ImagesAreNotArchives | internal/library/archive.go:24-50 | no name is both an image and an archive |
| Archive.ImageFileScenario | internal/library/archive.go:24-63 | "001.JPG" is an image, "notes.txt" is not, and "Vol 1.CBZ" opens as a zip |
| Archive.PageLessAsymmetric | internal/library/archive.go:326-336 | never both a before b and b before a |
| Archive.PageLessTransitive | internal/library/archive.go:326-336 | the page order is transitive, so with asymmetry it is a strict order fit for sorting |
| Archive.PageLess | internal/library/archive.go:326-336 | a hidden name never sorts before anything, every other name sorts before a hidden one, and no name sorts before itself |
| Archive.HiddenPagesLast | internal/library/archive.go:326-336 | in a sorted page list every page after a hidden page is hidden |
| Archive.CreateAndSortPages | internal/library/archive.go:66-83 | the pages are a permutation of the names, sorted by the page order and numbered 0, 1, … in that order |
| Archive.ImageNames | internal/library/archive.go:102-134 | only entries whose base name is an image are kept, and none are exactly when no entry is an image file |
| Archive.ParseCbz | internal/library/archive.go:150-188 | a zip parses exactly when it opens, holds an image and its thumbnail reads; a zip that cannot be opened fails with the reader's own reason; an imageless zip is "no image files found in archive"; a thumbnail that cannot be opened or read fails with "failed to open first page for thumbnail: " or "failed to read first page for thumbnail: " before the reason; the pages are well formed and the thumbnail is one of them |
| Archive.ParseCbr | internal/library/archive.go:192-208 | the other formats parse exactly when the file system opens and walks, holds an image and its first image reads; an open failure is "failed to open file system: " and a walk failure "failed to walk file system: " (findImageFilesInFS, archive.go:129-131) before the reader's reason, and a listed archive goes on as CbrOfEntries |
| Archive.CbrOfEntries | internal/library/archive.go:203-224 | an imageless listing is "no image files found in archive" and the path; the first sorted image failing to open is "failed to open first image file: " before the reason, failing to read is the reason alone (readFirstImageData, archive.go:86-99); a hidden thumbnail only when every page is hidden |
| Archive.PagesFromImages | internal/library/archive.go:66-83 | pages made of image names, numbered in order, are well formed |
| Archive.ThumbnailOrdinaryFirst | internal/library/archive.go:192-224 | the first sorted name, used as the thumbnail, is hidden only when every page is |
| Archive.ParseArchive | internal/library/archive.go:137-147 | an unsupported name is an error with its message, and a parsed archive is supported and has well-formed pages |
| Archive.UnsupportedIgnoresContents | internal/library/archive.go:137-147 | an unsupported file is never opened: the answer does not depend on its contents |
| Scanner.DepthLess | internal/library/scanner.go:190-199 | a directory never sorts before a shallower one, always before a deeper one, and never before itself |
| Scanner.DepthLessAsymmetric | internal/library/scanner.go:190-199 | the depth-then-name order never holds both ways |
| Scanner.DepthLessTransitive | internal/library/scanner.go:190-199 | the depth-then-name order is transitive |
| Scanner.DepthSorted | internal/library/scanner.go:190-199 | along the sorted directories the depth never decreases |
| Scanner.FolderOrder | internal/library/scanner.go:181-199 | the directories visited are exactly the walked directories holding archives, each once, sorted by depth and then by name |
| Scanner.ShallowerFirst | internal/library/scanner.go:189-199 | a shallower directory is visited before a deeper one |
| Scanner.CreateFolder | internal/library/scanner.go:202-218 | a known directory is left alone; an unknown one gets a folder with a fresh id, its base name and the id of its parent directory's folder when that is known, unless creating it fails |
| Scanner.CreateFolders | internal/library/scanner.go:202-218 | the pass keeps every known folder and adds exactly the visited directories whose creation does not fail |
| Scanner.CreatedFolders | internal/library/scanner.go:202-218 | every folder the pass creates is named after its directory, has a fresh id and, when it has a parent id, points at the folder of its parent directory |
| Scanner.ParentKnownEarlier | internal/library/scanner.go:205-215 | a new folder gets a parent id whenever its parent directory was known before the pass or was created earlier in it |
| Scanner.SyncFolders | internal/library/scanner.go:180-219 | after the sync the folders are exactly the old ones, unchanged, and the walked directories holding archives whose creation did not fail |
| Scanner.ParentLinked | internal/library/scanner.go:180-219 | because shallower directories come first, a new folder whose parent directory is or becomes a folder is linked to it |
| Scanner.SubfolderLinked | internal/library/scanner.go:180-219 | on the clean absolute paths the walk produces, every new sub-folder of a folder is linked to it |
| Scanner.ChapterStep | internal/library/scanner.go:227-263 | a non-archive is skipped and an archive that fails to parse is noted; a parsed archive in a known folder is created when its hash is unknown and moved when its hash is stored under another path, in its directory's folder; nothing else is written |
| Scanner.SyncChapters | internal/library/scanner.go:222-267 | the sync decides each walked path on its own, in walk order |
| Scanner.ParsingErrors | internal/library/scanner.go:225-238 | the error map holds exactly the paths of the parse failures, with their errors |
| Scanner.ParsingErrorsExact | internal/library/scanner.go:222-267 | the error map holds exactly the walked archives that fail to parse, each with its error |
| Scanner.ApplyChapter | internal/library/scanner.go:244-263 | a write never removes a chapter: a move of a stored hash rewrites only that chapter's path and folder; a create of an unknown hash adds exactly that chapter, with the next id, which then advances; any other action, including a create of a stored hash, changes nothing |
| Scanner.ApplyChapters | internal/library/scanner.go:222-267 | the writes of a sync never remove a chapter |
| Scanner.ApplyChaptersPaths | internal/library/scanner.go:244-263 | after the writes a chapter's path is the one it had or one written for its hash, and a moved chapter's path is one written for it |
| Scanner.PrunedChapters | internal/library/scanner.go:271-286 | only stored chapters are pruned |
| Scanner.PrunedFolders | internal/library/scanner.go:288-300 | only stored folders are pruned |
| Scanner.CandidatesNotPruned | internal/library/scanner.go:180-219 | a folder kept or created for a directory holding archives is not pruned, and every pruned folder existed before the sync |
| Scanner.RemoveChapters | internal/library/scanner.go:272-286 | deleting by hash removes exactly those chapters and leaves the rest unchanged |
| Scanner.SyncChapterTable | internal/library/scanner.go:129-165 | after the sync every chapter whose stored path was gone before it is deleted, and every chapter whose stored path is still there and parsed is kept |
| Scanner.MovedChapterDeleted | internal/library/scanner.go:130-165 | a chapter whose file moved is deleted by the same sync that records the move, because the prune still sees the old path, which is gone |
| Scanner.MovedChapterKept | internal/library/scanner.go:270-286 | when the prune reads the table after the writes, a moved chapter survives, at a walked path that parsed |
| Scanner.PruneDifference | internal/library/scanner.go:270-286 | the corrected sync keeps more than the original only for chapters whose path the sync changed |
| Scanner.BadFileStep | internal/library/scanner.go:342-372 | only archives are considered; an archive is recorded exactly when it cannot be stat'ed, as an I/O error of size 0, or failed to parse, with the category of its error and its size; any other archive's record is removed |
| Scanner.ApplyBadFile | internal/store/bad_file_store.go:25-91 | one write keeps the table at one row per path |
| Scanner.ApplyBadFiles | internal/library/scanner.go:342-372 | the writes keep the table at one row per path |
| Scanner.OtherPathsUntouched | internal/library/scanner.go:342-372 | writes for other paths leave a path's rows alone |
| Scanner.DecisionHolds | internal/library/scanner.go:342-372 | the decision for a path that no other decision touches is what the table finally holds for it |
| Scanner.CheckBadFilesDuringSync | internal/library/scanner.go:342-372 | the check keeps the table at one row per path |
| Scanner.CleanupMissingBadFileRecords | internal/library/scanner.go:375-392 | afterwards every record is for a walked path, and the records of walked paths are untouched |
| Scanner.BadFilesAfterSync | internal/library/scanner.go:161-172 | after both bad-file steps an archive that cannot be stat'ed has one I/O-error record, one that failed to parse has one record of its error's category and size, and any other has none |
| BadFileDetector.ContainsSubstring | internal/library/bad_file_detector.go:129-136 | the search finds a match exactly when the pattern occurs in the message |
| BadFileDetector.NoMatchNotContains | internal/library/bad_file_detector.go:129-136 | with no match at any position the pattern does not occur |
| BadFileDetector.ContainedIsShorter | internal/library/bad_file_detector.go:119-136 | a message is at least as long in bytes as any pattern it contains |
| BadFileDetector.ContainsAsWritten | internal/library/bad_file_detector.go:119-126 | the source's `contains` holds exactly when the two strings have equal byte length or the pattern really occurs |
| BadFileDetector.ContainsAsWrittenAgrees | internal/library/bad_file_detector.go:119-126 | away from equal lengths, `contains` is substring search |
| BadFileDetector.EqualLengthQuirk | internal/library/bad_file_detector.go:119-126 | "unexpected EOF" is said to contain "failed to open" though it does not |
| BadFileDetector.CaseSensitive | internal/library/bad_file_detector.go:118-126 | the match is case-sensitive, although its comment says otherwise: "PASSWORD" does not contain "password" |
| BadFileDetector.LongerNeverMatches | internal/library/bad_file_detector.go:119-126 | a pattern longer than the message never matches |
| BadFileDetector.Categorize | internal/library/bad_file_detector.go:94-116 | the category is one of the six, a message with the zip-invalid pattern is a corrupted archive, and invalid format is chosen only when no password or open pattern matches |
| BadFileDetector.CategorizeError | internal/library/bad_file_detector.go:94-126 | the category is one of the six, and for a message whose byte length is no pattern's it is the category the substring rules intend |
| BadFileDetector.CategorizeAgrees | internal/library/bad_file_detector.go:94-126 | a message whose byte length matches no pattern's is categorised as intended |
| BadFileDetector.PatternLengthDecides | internal/library/bad_file_detector.go:94-126 | as written, a message as long as one of the patterns is categorised by its length alone |
| BadFileDetector.UnexpectedEofMiscategorized | internal/library/bad_file_detector.go:94-126 | a truncated archive's "unexpected EOF" is filed as an I/O error, where the intended reading finds no pattern and says invalid format |
| BadFileDetector.EmptyZipIsEmptyArchive | internal/library/bad_file_detector.go:104-105 | the zip reader's no-images error is filed as an empty archive |
| BadFileDetector.CheckFile | internal/library/bad_file_detector.go:59-82 | an archive that cannot be stat'ed is skipped; one that fails to parse is recorded with a category and its size; one that parses has its record removed |
| BadFileDetector.ArchiveFiles | internal/library/bad_file_detector.go:28-37 | every non-directory entry with a supported archive name is checked, and nothing else is: each checked path is the name of such an entry |
| BadFileDetector.ArchiveFilesAppend | internal/library/bad_file_detector.go:28-37 | the files are collected in walk order: the archives of two stretches of the walk are those of the first followed by those of the second |
| BadFileDetector.ScanLibrary | internal/library/bad_file_detector.go:28-91 | a failed walk ends the job with "Error scanning library directory" and no decisions; otherwise the i-th decision is that of the i-th archive of the walk, every archive entry gets one, and the job reports no archives exactly when the walk holds no archive entry |
| BadFileDetector.Recorded | internal/library/bad_file_detector.go:69-78 | no more files are recorded than checked |
| BadFileDetector.DetectBadFiles | internal/library/bad_file_detector.go:18-91 | every archive gets exactly its own decision, in order, and the closing message says when there were no archives, when none was bad, and otherwise how many bad files were recorded |
| BadFileDetector.UnopenableArchive | internal/library/archive.go:196-199 | a RAR-family archive that cannot be opened fails with "failed to open file system: " and the reason, which contains "failed to open", so it is an io_error unless the message matches one of the three earlier rules; an unopenable zip keeps the reader's reason |
| BadFileDetector.UnreadableArchive | internal/library/bad_file_detector.go:59-78 | an archive that cannot be stat'ed leaves no record, and one that cannot be opened is recorded with one of the first four categories |
| BadFileStore.AtMostOneRow | internal/store/bad_file_store.go:25-39 | a valid table holds at most one row per path |
| BadFileStore.CreateBadFile | internal/store/bad_file_store.go:25-39 | recording a path replaces its row by exactly one new row with a fresh id, the path's base name and the detection time, and keeps every other path's row |
| BadFileStore.DeleteBadFile | internal/store/bad_file_store.go:70-79 | exactly that id goes, and an unknown id changes nothing and is not an error |
| BadFileStore.DeleteBadFileByPath | internal/store/bad_file_store.go:82-91 | exactly the path's row goes, and a path without one changes nothing |
| BadFileStore.CreateCount | internal/store/bad_file_store.go:25-39 | recording a path adds to the count only when the path had no row |
| BadFileStore.UpsertReplaces | internal/store/bad_file_store.go:25-39 | recording a path twice leaves one row, with the second error |
| BadFileStore.CreateThenDeleteByPath | internal/store/bad_file_store.go:25-91 | deleting by path undoes recording it |
| BadFileStore.RowsIn | internal/store/bad_file_store.go:42-67 | the rows are read in the given order, one per id |
| BadFileStore.GetAllBadFiles | internal/store/bad_file_store.go:42-67 | every row exactly once, newest detection first |
| ChapterStore.LastPart | internal/store/chapter_store.go:162-166 | the last element of a path holds no '/' |
| ChapterStore.StripExtension | internal/store/chapter_store.go:168-170 | the title is the name up to its last '.', or the whole name when it has none |
| ChapterStore.GetChapterTitle | internal/store/chapter_store.go:160-172 | a title never holds '/' and is the last path element without the suffix starting at its last '.' |
| ChapterStore.LastPartOfJoin | internal/store/chapter_store.go:162-166 | the last element of a joined path is the last part joined |
| ChapterStore.StripOneExtension | internal/store/chapter_store.go:168-170 | "stem.ext" loses exactly ".ext" when the extension holds no '.' |
| ChapterStore.TitleOfChapterFile | internal/store/chapter_store.go:160-172 | a file "stem.ext" in any directory is titled "stem", even when the stem holds dots |
| ChapterStore.TitleWithoutExtension | internal/store/chapter_store.go:160-172 | a file name without a '.' is its own title |
| ChapterStore.FirstIndex | internal/store/chapter_store.go:190-197 | the search gives -1 exactly when the chapter is absent, and otherwise its first position |
| ChapterStore.Listed | internal/store/chapter_store.go:178-185 | the neighbours are looked for among the first 10000 chapters of the folder in reading order |
| ChapterStore.GetChapterNeighbors | internal/store/chapter_store.go:175-218 | the neighbours are the chapters either side of the first occurrence of the current one in that listing, none at either end, and none at all when it is absent |
| ChapterStore.NeighborsAreOthers | internal/store/chapter_store.go:175-218 | with distinct ids neither neighbour is the current chapter and the two differ |
| ChapterStore.NeighborsInverse | internal/store/chapter_store.go:175-218 | the chapter after the previous one is the current one, and so is the chapter before the next one |
| ChapterStore.BeyondPageHasNoNeighbors | internal/store/chapter_store.go:178-201 | a chapter listed after the first 10000 of its folder has no neighbours |
| HomeQueries.ItemIndex | internal/store/home_queries.go:300 | the lookup finds the item of a series exactly when the series has one |
| HomeQueries.Distinct | internal/store/home_queries.go:288-312 | the series are listed once each, exactly those with rows |
| HomeQueries.Summary | internal/store/home_queries.go:300-312 | a series' item is for that series and counts at least one new chapter |
| HomeQueries.Summaries | internal/store/home_queries.go:288-312 | there is one item per series with rows, in order of first appearance |
| HomeQueries.SummaryOtherRow | internal/store/home_queries.go:300-312 | a row of another series leaves an item as it was |
| HomeQueries.SummarySameRow | internal/store/home_queries.go:300-305 | another row of the same series adds one to its count and drops the chapter |
| HomeQueries.SummaryNewRow | internal/store/home_queries.go:306-312 | the first row of a series gives an item that keeps its chapter |
| HomeQueries.AddSeenRow | internal/store/home_queries.go:300-305 | the loop's update for a series already seen agrees with the per-series summary |
| HomeQueries.AddNewRow | internal/store/home_queries.go:306-312 | the loop's update for a new series agrees with the per-series summary |
| HomeQueries.GroupIsSummaries | internal/store/home_queries.go:288-313 | the grouping loop computes exactly the per-series summaries, in order of each series' newest chapter |
| HomeQueries.TakeUntilLimit | internal/store/home_queries.go:315-321 | items are taken until there are `limit` of them, the check following the append, so at least one is returned whenever there is one |
| HomeQueries.GetRecentlyAdded | internal/store/home_queries.go:268-324 | a positive limit caps the number of series, and any other limit yields at most one, since the loop checks the count only after appending |
| HomeQueries.RecentlyAddedMeaning | internal/store/home_queries.go:268-324 | at most `limit` items from the newest 2·limit chapters, one per series in order of newest chapter, each counting that series' chapters and keeping the chapter only when there is one |
| HomeQueries.FirstAppearanceOrder | internal/store/home_queries.go:288-312 | the series are listed in order of their first row |
| HomeQueries.NegativeLimitReturnsOne | internal/store/home_queries.go:280-320 | a negative limit fetches every chapter and still returns exactly one series |
| HomeQueries.GetNextUp | internal/store/home_queries.go:131-144 | the answer has `limit` items, or fewer when there are fewer candidates, and none for a negative limit |
| HomeQueries.NextUpNewestFirst | internal/store/home_queries.go:131-144 | the items are candidates sorted by last read, newest first, and no candidate left out was read more recently than one kept |
| TagStore.Normalize | internal/store/tag_store.go:54 | a tag name is stored trimmed and without upper-case letters |
| TagStore.AddTagToFolder | internal/store/tag_store.go:45-89 | a name that is empty once trimmed is "tag name cannot be empty"; otherwise the tag of that normal name is reused or created with a fresh id, and linked to the folder |
| TagStore.RemoveTagFromFolder | internal/store/tag_store.go:92-95 | exactly that link goes, and an absent link is not an error |
| TagStore.AddTwiceIsIdempotent | internal/store/tag_store.go:45-89 | adding a tag again under any spelling with the same normal form returns the same tag and changes nothing |
| TagStore.RemoveIdempotent | internal/store/tag_store.go:92-95 | removing twice is removing once, and other links stay |
| TagStore.RemoveUndoesAdd | internal/store/tag_store.go:45-95 | removing a link that adding created restores the links |
| TagStore.NormalizeIgnoresCase | internal/store/tag_store.go:54 | upper-casing a name does not change its normal form |
| TagStore.NormalizeIgnoresPadding | internal/store/tag_store.go:54 | surrounding white space does not change the normal form |
| UserStore.HexEncode | internal/store/user_store.go:117 | the token has two hex digits per byte |
| UserStore.HexDecode | internal/store/user_store.go:117 | an even string of hex digits decodes to half as many bytes |
| UserStore.HexRoundTrip | internal/store/user_store.go:117 | decoding an encoded token gives back its bytes |
| UserStore.CreateSession | internal/store/user_store.go:112-121 | the session is stored exactly when its token is new; the token is the 64-digit hex form of the random bytes and the session lasts one week from now |
| UserStore.DeleteSession | internal/store/user_store.go:124-127 | exactly that token goes, and an unknown token is not an error |
| UserStore.GetUserFromSession | internal/store/user_store.go:84-102 | an unknown token is "invalid session token"; an expired session is removed and reported; a live one, including at its last second, gives its user |
| UserStore.SessionLastsOneWeek | internal/store/user_store.go:84-121 | a new session logs its user in for exactly one week, and then expires |
| UserStore.ExpiredThenInvalid | internal/store/user_store.go:96-99 | once expired, a session is gone: the next lookup says the token is invalid |
| UserStore.LogoutInvalidates | internal/store/user_store.go:84-127 | after logout the token no longer works, and other sessions answer as before |
| JobManager.NewManager | internal/jobs/manager.go:42-49 | a new manager has no jobs and runs nothing |
| JobManager.Register | internal/jobs/manager.go:51-56 | registering records the job with a fresh idle status and changes no other job |
| JobManager.RunJob | internal/jobs/manager.go:59-104 | a run starts exactly when nothing runs and the name is known, with "a job is already running" checked first; the started job is marked running and no other status changes |
| JobManager.Finish | internal/jobs/manager.go:82-99 | at the end of a run the flag is cleared; a panic marks the job failed with its message, a status still running becomes success, and a status object replaced meanwhile is left alone |
| JobManager.GetStatus | internal/jobs/manager.go:107-116 | every registered job's status exactly once |
| JobManager.OneJobAtATime | internal/jobs/manager.go:59-104 | once any job has started no job can start until it finishes, and then one can |
| JobManager.PanicIsNotSuccess | internal/jobs/manager.go:82-99 | a run that panicked ends failed, never success |
| JobManager.NormalRunSucceeds | internal/jobs/manager.go:82-99 | a run that returns normally ends in success |
| JobManager.UnknownJobChangesNothing | internal/jobs/manager.go:66-70 | an unknown name is "job 'X' not found" and changes nothing |
| ChapterSort.Decimal | internal/util/chaptersort.go:203 | a matched number's value is its whole part plus a fraction below one, so never negative |
| ChapterSort.Number | internal/util/chaptersort.go:192 | the number a match starts with is non-empty and non-negative |
| ChapterSort.ScanFrom | internal/util/chaptersort.go:192-209 | scanning keeps every earlier key and every new key is made of key characters |
| ChapterSort.ScanFromNonNegative | internal/util/chaptersort.go:192-209 | the values recorded while scanning are never negative |
| ChapterSort.ScanFromNoDigits | internal/util/chaptersort.go:192-209 | a rest of the title without digits holds no match, so the scan records nothing more |
| ChapterSort.Scan | internal/util/chaptersort.go:189-211 | every key scanned is made of key characters and has a non-negative value, and a name without digits has no keys |
| ChapterSort.ScanVolumeAndChapter | internal/util/chaptersort.go:189-211 | "Vol.2 Ch. 2.5" scans to Vol. 2 and Ch. 2.5: the point belongs to the key, blanks before a number are skipped, and 2.5 is one number |
| ChapterSort.ScanSingle | internal/util/chaptersort.go:189-211 | a key of key characters, one blank and a whole number scan to exactly that key with that number's value |
| ChapterSort.ScanRepeatedKey | internal/util/chaptersort.go:196-209 | a key that occurs twice keeps the value of its last occurrence, since each match overwrites the entry |
| ChapterSort.ScanPair | internal/util/chaptersort.go:192-208 | a key, one blank and a whole number ended by a blank or the end are recorded as one entry, and scanning resumes after the number |
| ChapterSort.CompareItems | internal/util/chaptersort.go:23-43 | the answer is -1, 0 or 1, and 0 exactly when the items agree on every key |
| ChapterSort.CompareDecidedBy | internal/util/chaptersort.go:23-43 | a non-zero answer is that of the first key that separates the items, an item lacking the key sorting after one that has it |
| ChapterSort.CompareAntisymmetric | internal/util/chaptersort.go:23-43 | swapping the items negates the answer |
| ChapterSort.CompareReflexive | internal/util/chaptersort.go:23-43 | an item compares equal to itself |
| ChapterSort.NewKeyRange | internal/util/chaptersort.go:53-59 | a new range is the single value, counted once |
| ChapterSort.Update | internal/util/chaptersort.go:62-70 | the range widens just enough to take in the value, and the count goes up by one |
| ChapterSort.SanitizeKey | internal/util/chaptersort.go:177-185 | the sanitised key is made of lower-case letters and keeps every letter of the key, lower-cased |
| ChapterSort.SanitizeKeyIsLowerLetters | internal/util/chaptersort.go:177-185 | sanitising is dropping the non-letters, then lower-casing |
| ChapterSort.SanitizeKeyIdempotent | internal/util/chaptersort.go:177-185 | sanitising a sanitised key changes nothing |
| ChapterSort.FirstVariant | internal/util/chaptersort.go:126-135 | no key is found exactly when no available key is a variant, and otherwise the key found is an available variant |
| ChapterSort.FirstVariantIsFirst | internal/util/chaptersort.go:126-135 | the key found is the first available variant |
| ChapterSort.LetterlessKeyMatchesFirst | internal/util/chaptersort.go:126-135 | a key without letters is a variant of every key, so it is mapped to the first sort key |
| ChapterSort.AddScan | internal/util/chaptersort.go:87-95 | folding one name's scan into the ranges adds its keys and counts each once |
| ChapterSort.Collect | internal/util/chaptersort.go:85-95 | after the first loop every range is valid and no key is counted more often than there are names |
| ChapterSort.TopKeys | internal/util/chaptersort.go:97-104 | the top keys are exactly those counted at least half as often as there are names, each once |
| ChapterSort.Merge | internal/util/chaptersort.go:138-154 | merging widens only the ranges of top keys, never lowers a count, and leaves every other range alone |
| ChapterSort.KeyBefore | internal/util/chaptersort.go:111-120 | only keys with ranges are ordered, a key never precedes one counted more often, always precedes one counted less often, and never precedes itself |
| ChapterSort.KeyBeforeAsymmetric | internal/util/chaptersort.go:111-120 | the key order never holds both ways |
| ChapterSort.KeyBeforeTransitive | internal/util/chaptersort.go:111-120 | the key order (count descending, then range ascending) is transitive |
| ChapterSort.NewChapterSorter | internal/util/chaptersort.go:84-123 | the sort keys are exactly the keys found in at least half of the names, each once, sorted by count descending and then by range ascending |
| ChapterSort.StrToItem | internal/util/chaptersort.go:164-174 | every scanned key lands under its first variant among the sort keys, or itself, with one of the scanned values |
| ChapterSort.Compare | internal/util/chaptersort.go:157-161 | comparing two names gives -1, 0 or 1 |
| ChapterSort.CompareSwapped | internal/util/chaptersort.go:157-161 | swapping two names negates the comparison, so one sorts before the other exactly when the other sorts after it |
| ChapterSort.CompareSelf | internal/util/chaptersort.go:157-161 | a name compares equal to itself |
| ChapterSortExample.ScansOfNames | internal/util/chaptersort.go:189-211 | the five test names scan to Vol. 1 and Ch. 1, Vol. 1 and Ch. 2, Vol. 2 and Ch. 2.5, Ch. 3, and Ch. 4: a leading zero is dropped and a blank before the number is optional |
| ChapterSortExample.CollectReceived | internal/util/chaptersort.go:85-95 | over the five names "Ch." is counted five times and "Vol." three times, and no other key occurs |
| ChapterSortExample.MergeOfTopKeys | internal/util/chaptersort.go:138-154 | a merge pass over keys that are all top keys changes no range |
| ChapterSortExample.SorterOfReceived | internal/util/chaptersort.go:84-123 | both keys reach half of five names, so both are sort keys, and "Ch." comes first as it is counted more often, whatever the map's iteration orders |
| ChapterSortExample.StrToItemIsScan | internal/util/chaptersort.go:126-175 | "Ch." and "Vol." are each a variant of no earlier sort key than itself, so a scan holding only those keys becomes an item equal to the scan, in any iteration order |
| ChapterSortExample.CompareByChapter | internal/util/chaptersort.go:157-161 | with "Ch." the first sort key, a name with the smaller chapter number compares as -1 |
| ChapterSortExample.SortsBackIntoReadingOrder | internal/util/chaptersort_test.go:9-28 | with the sorter built from the names in reverse order, each name compares as -1 with the next one in reading order, "Vol.1 Ch.01" < "Vol.1 Ch.02" < "Vol.2 Ch. 2.5" < "Ch. 3" < "Ch.04", for every iteration order of the key map and of each scan |
| NaturalSort.RunEnd | internal/util/naturalsort.go:9 | a run extends over characters of one class and stops at the first of the other |
| NaturalSort.Runs | internal/util/naturalsort.go:9-18 | the runs join back to the name, each is maximal, and neighbouring runs alternate between digits and non-digits |
| NaturalSort.Tokenize | internal/util/naturalsort.go:17-29 | there is one token per run |
| NaturalSort.TokenOf | internal/util/naturalsort.go:20-27 | a digit run that fits in an int64 is its number; a longer one, and any other run, is text, lower-cased |
| NaturalSort.NonDigitRunIsNotANumber | internal/util/naturalsort.go:21-26 | a run of non-digits never parses as a number |
| NaturalSort.TokenizeIgnoresCase | internal/util/naturalsort.go:17-29 | upper and lower case give the same tokens |
| NaturalSort.NaturalLess | internal/util/naturalsort.go:32-59 | names equal up to case, and so a name and itself, are not ordered either way |
| NaturalSort.TokensLess | internal/util/naturalsort.go:35-58 | a token sequence is not less than itself |
| NaturalSort.NaturalLessAsymmetric | internal/util/naturalsort.go:32-59 | the order never holds both ways |
| NaturalSort.TokensLessStep | internal/util/naturalsort.go:35-58 | the token comparison is decided by the first tokens unless they are equal: numbers before text, numbers by value, text by byte order |
| NaturalSort.TokensLessTransitive | internal/util/naturalsort.go:35-58 | the token comparison is transitive |
| NaturalSort.NaturalLessTransitive | internal/util/naturalsort.go:32-59 | the natural order is transitive, so with asymmetry it is a strict order fit for sorting |
| NaturalSort.FewerTokensFirst | internal/util/naturalsort.go:57-58 | when all common tokens are equal, fewer tokens come first |
| NaturalSort.NumberBeforeText | internal/util/naturalsort.go:38-44 | at the first differing position a number precedes text |
| NaturalSort.SmallerNumberFirst | internal/util/naturalsort.go:46-49 | at the first differing position of two numbers the smaller comes first |
| NaturalSort.ChapterTwoBeforeTen | internal/util/naturalsort.go:32-59 | "ch 2" sorts before "ch 10" |
| NaturalSort.FileBeforeFileOne | internal/util/naturalsort.go:32-59 | "file" sorts before "file1" and not after |
| PathValidation.SanitizeFolderName | internal/util/path_validation.go:155-191 | the empty name stays empty; any result has no control or rejected character, no run of dashes and no dash at either end |
| PathValidation.CleanedFacts | internal/util/path_validation.go:160-176 | the cleaning steps before the device-name check leave no control or rejected character, no run of dashes and no dash at either end |
| PathValidation.PlainNameKept | internal/util/path_validation.go:155-191 | the one-letter name "x" comes back unchanged |
| PathValidation.OrdinaryNameKept | internal/util/path_validation.go:155-191 | a non-empty name of allowed characters, with no run of dashes, no space, dot or dash at either end and no device name, comes back unchanged |
| PathValidation.UnderscoreKeepsFacts | internal/util/path_validation.go:186-188 | appending "_" to a reserved name keeps every property the cleaning established |
| PathValidation.ReservedNameGetsUnderscore | internal/util/path_validation.go:178-188 | a name that upper-cases to a reserved device name comes back with "_" appended and is otherwise untouched |
| PathValidation.OnlyInvalidCharactersGiveEmpty | internal/util/path_validation.go:160-176 | a name of control characters, rejected characters and dashes only sanitises to "" |
| PathValidation.OnlySpacesAndDotsGiveEmpty | internal/util/path_validation.go:168-169 | a name of spaces and dots only sanitises to "" |
| PathValidation.DashShieldedDotsSurvive | internal/util/path_validation.go:168-176 | "-..-" sanitises to "..", the parent directory, while ".." itself sanitises to "" |
| PathValidation.ShortNameNotReserved | internal/util/path_validation.go:179-185 | every reserved name has three or four characters |
| PathValidation.Normalize | internal/util/path_validation.go:119 | backslashes become '/', and nothing else changes |
| PathValidation.SanitizeComponents | internal/util/path_validation.go:136-142 | at most one entry per component, each of allowed characters only, and none at all when every component is empty |
| PathValidation.SanitizeFolderPath | internal/util/path_validation.go:113-150 | the empty path stays empty, and the result holds only separators and allowed characters |
| PathValidation.PlainPathKept | internal/util/path_validation.go:113-150 | components that are non-empty and fixed by the name sanitiser, joined by '/', sanitise to that join, and a leading '/', a trailing '/' or both are dropped (the "normal path", leading and trailing slash cases of internal/util/path_validation_test.go:124-143) |
| PathValidation.DotSegmentsResolved | internal/util/path_validation.go:122-149 | for such components `a/./b/../c` sanitises to `a/c`: "." is dropped and ".." cancels the component before it (internal/util/path_validation_test.go:295-299) |
| PathValidation.SeparatorRunsCollapse | internal/util/path_validation.go:122-149 | for such components `a///b////c` sanitises to `a/b/c` (internal/util/path_validation_test.go:300-304) |
| PathValidation.LowerWordPlain | internal/util/path_validation.go:155-191 | a lower-case ASCII word of four letters or more is such a component, as "path", "subfolder" and "other" are |
| Paths.CleanRelative | internal/util/path_validation.go:122 | `filepath.Clean` leaves a relative join of normal elements alone and drops a trailing separator from it |
| Paths.CleanDotSegments | internal/util/path_validation.go:122 | `filepath.Clean` turns `a/./b/../c` into `a/c` for normal elements |
| Paths.CleanSeparatorRuns | internal/util/path_validation.go:122 | `filepath.Clean` turns `a///b////c` into `a/b/c` for normal elements |
| PathValidation.OnlySeparatorsGiveEmpty | internal/util/path_validation.go:124-130 | a path of separators only, '/' or '\\', sanitises to "" |
| PathValidation.BackslashIsSeparator | internal/util/path_validation.go:118-119 | a path and its '/'-normalised form sanitise alike |
| PathValidation.DotDotBecomesEmptyComponent | internal/util/path_validation.go:122-149 | a ".." that survives cleaning sanitises to an empty component that is kept, so "../x" becomes "/x" |
| PathValidation.RelativeFolderPath | internal/util/path_validation.go:113-149 | the corrected path is empty for the empty path, holds only separators and allowed characters, and neither starts nor ends with a separator |
| PathValidation.RelativeDotDotDropped | internal/util/path_validation.go:122-149 | with the corrected test "../x" sanitises to "x" |
| PathValidation.SafeFolderName | internal/util/path_validation.go:155-191 | the corrected name keeps the same character rules and has no space, dot or dash at either end, so it is never "." or ".." |
| PathValidation.SafeCleanedFacts | internal/util/path_validation.go:160-176 | the corrected cleaning leaves no control or rejected character, no run of dashes and no space, dot or dash at either end |
| PathValidation.SafeCleanedIdentity | internal/util/path_validation.go:160-176 | a name that already meets the rules is left alone by the corrected cleaning |
| PathValidation.SafeFolderNameIdempotent | internal/util/path_validation.go:155-191 | sanitising a name sanitised by the corrected rules changes nothing |
| PathValidation.CleanNameIsFixed | internal/util/path_validation.go:155-191 | a clean name that is no device name is its own corrected form |
| PathValidation.SuffixedNameIsFixed | internal/util/path_validation.go:178-188 | a device name with "_" appended is its own corrected form |
| PathValidation.SafeReservedNameGetsUnderscore | internal/util/path_validation.go:178-188 | the corrected rules treat reserved names as before |
| PathValidation.SafeFolderNameDropsShieldedDots | internal/util/path_validation.go:168-176 | with the corrected rules "-..-" sanitises to "" |
| WeebCentral.CleanChapterNumber | internal/downloader/providers/weebcentral/weebcentral.go:213-219 | the result is never empty; it is "0" exactly when the input is all zeros, and otherwise the input less its leading zeros |
| WeebCentral.CleanIdempotent | internal/downloader/providers/weebcentral/weebcentral.go:213-219 | cleaning twice is cleaning once |
| WeebCentral.HalfChapterLosesZero | internal/downloader/providers/weebcentral/weebcentral.go:213-219 | the chapter number "0.5" comes out as ".5", which is no longer a chapter number |
| WeebCentral.CleanChapterNumberIntended | internal/downloader/providers/weebcentral/weebcentral.go:213-219 | the corrected clean-up only drops leading zeros, and keeps a chapter number a chapter number without a superfluous leading zero |
| WeebCentral.IntendedAgrees | internal/downloader/providers/weebcentral/weebcentral.go:213-219 | the two agree whenever the original's result starts with a digit |
| WeebCentral.IntendedKeepsHalfChapter | internal/downloader/providers/weebcentral/weebcentral.go:213-219 | the corrected clean-up keeps "0.5" and is idempotent on chapter numbers |
| Strconv.Atoi | internal/api/handlers.go:20-26 | `strconv.Atoi` always yields an int64, and on error one of 0 and the two bounds |
| Strconv.AtoiDigits | internal/api/handlers.go:20-26 | a run of digits parses exactly when its value fits in an int64, and then to that value |
| Strconv.AtoiSaturates | internal/api/handlers.go:20-23 | a run of digits too large for an int64 parses, with an error, to the largest int64 |
| Strconv.AtoiItoa | internal/api/handlers.go:20-26 | formatting any int64 in decimal and parsing it back gives the same number, without error |

## Left out

- **Concurrency and locking.** Mutexes, goroutines, tickers and channels are replaced by atomic steps. Nothing says which interleavings occur, only what each step does. Examples are the idle-plugin ticker, the worker pool and the job goroutine.
- **Database access.** SQL is modelled by its effect on the table, not by the query text. Transactions are assumed to commit. The error of a failing query is not modelled except where the code branches on it.
- **Broadcasts.** WebSocket progress broadcasts have no effect on the modelled state and are left out. The per-page progress the worker writes to the queue row is modelled, by `Downloader.Page`.
- Downloader.Page: the progress written after each page is `Downloader.Percent`, the exact whole-number percentage `done * 100 / total`. The code computes `int((float64(i+1)/float64(total))*100)` (internal/downloader/worker.go:209) in floating point, which is one less whenever the float quotient falls just below a whole number: 29 pages of 50 give 57 there, not 58, and so do 57 or 58 pages of 100 and 87 of 150. Floating point is not modelled, so the contract states the exact share and not the float's rounding.
- **Archive decoding.** Reading ZIP and RAR archives, thumbnail generation and page extraction are inputs: the list of entries an archive yields, or the stage that failed (opening, walking, or opening or reading the first image) with the reader's own reason.
- Paths.NonEmptyParts and Downloader.SeriesFolder: `filepath.Join` also cleans the joined path, so a "." among the parts is dropped and a ".." cancels the part before it (internal/downloader/worker.go:249-250). `Downloader.SeriesFolder` returns the parts before that cleaning: the custom path "a/-..-" gives ["a", ".."], which names the library itself once cleaned.
- **The file system.** The library walk, `os.Stat` and content hashing are abstract facts of a `Disk` value (which paths exist, which are directories, each file's hash and parse result).
- **The JavaScript runtime.** The plugin runtime (goja), the plugin's own code and its config object are not modelled. A loaded plugin is a record of its manifest and its last-use time.
- **Plugin manager maintenance.** `ReloadAllPlugins` (internal/plugins/manager.go:444-459) and the directory creation errors of `LoadPlugins` are left out. They are file-system and runtime plumbing around the modelled maps.
- **Network requests.** `FetchRepository`'s HTTP status and JSON handling (internal/plugins/repository_service.go:40-62) and `downloadFile` become a fetch result given as input. The resource proxy's request construction, header forwarding and body copy (internal/api/resource_proxy.go:55-84, 128-135) are left out, because only the status and header decisions are modelled.
- PluginRepository.CheckForUpdates: semantic-version comparison (internal/plugins/version.go) is an abstract `Newer` relation, so the contract says which plugins are reported and not how versions compare.
- **Rendering.** `ValidateFolderPath`, the HTML handlers and the rest of internal/api are out of scope. So is logging, including the tracking-error log of the store.
- **Number types.** Go's `big.Float` in the chapter sorter is Dafny's `real`. It is exact where Go rounds, but the keys compared are short decimal numbers either way.
- **Integer width.** Go's `int` is 64-bit. Wrap-around is modelled where it matters: the page offset in `limitAndOffset*` and the saturation of `strconv.Atoi`. Elsewhere integers are unbounded.
- **Unicode.** Case mapping is ASCII only, and `unicode.IsLetter` is approximated by ASCII letters in the chapter-key sanitiser.
- DownloadQueue.AddChapters: every row of one call is stamped with the same `now`, where the code calls `time.Now()` once per row (internal/store/download_store.go:43). The clock is a parameter.
- UserStore.CreateSession: the token is 32 random bytes from `crypto/rand`, so it is a parameter, and a collision with an existing token is not ruled out by the model.

## Findings

| source | as written | input that shows it | evidently intended | confidence | as-written member | corrected member |
|---|---|---|---|---|---|---|
| internal/util/path_validation.go:168-176 | spaces and dots are trimmed before the dashes, so dots shielded by dashes survive | `SanitizeFolderName("-..-")` is "..", and a series of that title is written to the library's parent (internal/downloader/worker.go:238-261) | a sanitised name is never "." or ".." | high, not executed | PathValidation.DashShieldedDotsSurvive, Downloader.SeriesTitleLeavesLibrary | PathValidation.SafeFolderName, PathValidation.SafeFolderNameIdempotent, Downloader.SafeSeriesFolder |
| internal/util/path_validation.go:136-149 | components are tested for emptiness before `SanitizeFolderName`, so one that sanitises to "" is kept and joined | `SanitizeFolderPath("../x")` is "/x", which starts with a separator although the separators were trimmed at line 124 | "x": a component that sanitises to "" is dropped like an empty one | medium, not executed | PathValidation.DotDotBecomesEmptyComponent | PathValidation.RelativeFolderPath, PathValidation.RelativeDotDotDropped |
| internal/library/bad_file_detector.go:119-126 | `contains` is true for any two strings of equal length | "unexpected EOF" has the length of "failed to open" and is filed as `io_error` | a substring test, which puts it in `invalid_format` | high, not executed | BadFileDetector.UnexpectedEofMiscategorized, BadFileDetector.PatternLengthDecides | BadFileDetector.Categorize, BadFileDetector.CategorizeAgrees |
| internal/library/scanner.go:129-130 | `prune` (line 165) checks the chapters read before `syncChapters` moved any of them | a chapter whose file moved: the sync records the new path, then deletes the row because the old path is gone | a moved chapter is kept at its new path | medium, not executed | Scanner.MovedChapterDeleted | Scanner.MovedChapterKept |
| internal/store/folder_store.go:471-489 | `limitAndOffset*` computes `(page-1)*perPage` without checking `page` | page 0, which `ListItems` options without `Page` pass (internal/store/home_queries.go:205), gives a negative slice bound and a panic | an empty page, or the first page | medium, not executed | FolderStore.PageZeroPanics | FolderStore.LimitAndOffsetChecked, FolderStore.CheckedAgrees |
| internal/api/handlers.go:19-23 | `Atoi` saturates an oversized page number at MaxInt64 and `getListParams` keeps it | `?page=99999999999999999999` makes the offset wrap negative and the slice panic | an empty page | medium, not executed | ListParams.HugePagePanics, FolderStore.SaturatedPagePanics | ListParams.HugePageCheckedIsEmpty |
| internal/downloader/providers/weebcentral/weebcentral.go:213-219 | `TrimLeft(s, "0")` also strips the zero before a decimal point | "0.5" becomes ".5" | "0.5" | high, not executed | WeebCentral.HalfChapterLosesZero | WeebCentral.CleanChapterNumberIntended, WeebCentral.IntendedKeepsHalfChapter, WeebCentral.IntendedAgrees |
| internal/assets/web/static/js/path-utils.js:40-51 | leading dots are cut after the leading slashes | "../etc" becomes "/etc", an absolute path | a relative path such as "etc" | high, not executed | PathUtils.ParentPathBecomesAbsolute | PathUtils.SanitizePathRelative, PathUtils.ParentPathStaysRelative, PathUtils.RelativeAgrees |
| internal/plugins/manager.go:160-168 | every discovered downloader is registered as a provider without checking the registry (internal/downloader/providers/registry.go:14-17) | two plugin directories whose manifests share one id, or a plugin id equal to a built-in provider's, make registration panic | an id is registered once | medium, not executed | PluginManager.SameIdTwicePanics | PluginManager.RegisterLazyOnce, PluginManager.RegisterOnceAgrees |
| internal/plugins/manager.go:319-326 | `LoadPluginIfNeeded` dereferences `pm.plugins[pluginID]` once `loadPluginInternal` returns no error, but that call returns nil without loading anything when the manifest's type is no longer "downloader" (259-263) | a discovered plugin whose manifest now names another type: nil dereference | an error | medium, not executed | PluginManager.ChangedTypeCrashes | PluginManager.LoadPluginIfNeededChecked, PluginManager.CheckedLoadAgrees |

## Behaviour of the code worth knowing

- **Status guards.** Of the single-item actions only retry is guarded: it requires `failed`. Pause, resume and delete apply to a row of any status, and no retry counter is kept (DownloadQueue.PauseItem, DownloadQueue.ResumeItem, DownloadQueue.RetryItem).
- **`empty_queue`.** The web client posts the action `empty_queue` (internal/assets/web/static/js/download_manager.js:105-115), but `handleQueueAction` has no such case, so it answers 400 "Invalid action" (QueueActions.EmptyQueueActionRejected). The store's `EmptyQueue` is modelled all the same (DownloadQueue.EmptyQueue).
- **Startup.** Rows left `in_progress` are re-queued with progress 0 (Downloader.Start).
- **Worker count.** `numWorkers` is `min(1, NumCPU)`, so exactly one worker runs (Downloader.NumWorkers).
- **Jobs after a pause.** A job already handed to the worker's channel runs after `pause_all`. The worker sets it `in_progress` without reading its status (QueueActions.PauseAllMissesBufferedJob).
- **Chapter keys.** The sorter orders its keys by count descending, then by range ascending, although the code's comment says descending (ChapterSort.NewChapterSorter).
- **Metadata.** `ExtractMetadataFromPath` compares the parent directory with the library path as plain strings. A library path with a trailing separator never matches (Metadata.TrailingSeparatorMissesRoot).
- **Recently added.** `GetRecentlyAdded` with a negative limit returns one series (HomeQueries.NegativeLimitReturnsOne).
- **`sanitizePath`.** It is not idempotent (PathUtils.NotIdempotent).
