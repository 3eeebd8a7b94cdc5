# Contract dashboard core, modelled in Dafny

This project models the core logic of a contract-analysis dashboard. The system is written in Python: a FastAPI server, a pandas analyser and an Excel importer. There are four parts.

- **The channel registry** of `websocket_manager.py` (`ConnectionManager`).
  - It maps each channel name to an ordered list of `(connection_id, websocket)` pairs, and keeps a `last_ping` ledger from connection id to time.
  - It covers `startup`, `connect`, `disconnect`, `send_personal_message`, `broadcast`, one iteration of `_ping_clients` and `_handle_connection_error`.
  - Sockets are opaque tokens and `uuid4()` is an id argument. `datetime.now()` is an integer count of microseconds. Whether a send or ping succeeds is a function supplied by the caller.
  - Modules: `Registry` holds the operations and `RegistryProofs` holds their properties. The registry invariant `Valid` says three things: every registered id has a ledger entry; ids are unique within and across channels; `order` lists the channel keys in dictionary order.
- **The plain connection list** of `app.py` and the echo loop of its `/ws` endpoint (module `ListRegistry`).
- **The analyser** of `static/analisar_dados_v5.py` (class `AnalisadorInteligente`):
  - `normalizar_valor`;
  - header naming and the search for the status column;
  - STATUS cleaning and relabelling;
  - `contar_status_especificos` and the per-sheet metrics built by `carregar_dados` (module `Analyser`);
  - `validar_dados_antes_geracao` (module `Validation`);
  - the totals of `gerar_relatorio_geral` (module `Totals`);
  - the line classifier and totals of `RelatorioDatabase.importar_relatorio_txt` (module `ReportImport`).
- **The Excel import** of `import_excel.py`: `convert_to_days` and the per-sheet, per-row loop of `process_excel_file` (module `ExcelImport`).

Shared modules:
- `Wrappers`: `Option` and `Result`.
- `Text`: Python's `str.strip`, `str.upper` (ASCII and Latin-1), `str.split`, `str.replace`, `in`, `int()` and `str()` of integers.
- `Tally`: counting, `value_counts`, sums of count tables, and the position of a value in a list.
- `Cells`: spreadsheet cell values, with `str()`, truthiness and `pd.isna`.

Behaviours of the code the model keeps:
- **Registry shape.** Each channel holds an ordered list of `(connection_id, websocket)` pairs. `disconnect` takes a socket and removes the first pair holding it.
- **Ledger refresh.** `last_ping` is refreshed when a ping is sent successfully (websocket_manager.py:113-114). No reply from the client is ever read.
- **`startup`.** It replaces the whole channel dictionary with the empty channels `metrics` and `alerts`. It leaves the ledger as it was.
- **Reconnecting a socket.** `connect` appends a new pair under a fresh id. An existing pair holding the same socket stays.
- **Eviction.** Evicting a connection does not close its socket, and there is no shutdown operation.

## Model

| member | source | states |
|---|---|---|
| Registry.Create | websocket_manager.py:12-16 | a new manager has no channels, an empty channel order, an empty ledger and is not initialised |
| RegistryProofs.CreateValid | websocket_manager.py:12-16 | the new manager satisfies the registry invariant |
| Registry.Startup | websocket_manager.py:19-28 | a second call returns the manager unchanged; a first call leaves exactly the empty channels `metrics` and `alerts`, in that order, keeps the ledger and sets `initialized` |
| RegistryProofs.StartupIdempotent | websocket_manager.py:21-22 | calling `startup` twice is the same as calling it once, and afterwards the manager is initialised |
| RegistryProofs.StartupValid | websocket_manager.py:24-28 | `startup` preserves the registry invariant |
| Registry.Connect | websocket_manager.py:34-48 | a failed handshake raises and changes nothing; otherwise the channel is created if absent, `(id, ws)` is appended at the end of its list, `last_ping[id] = now`, and every other channel is unchanged |
| RegistryProofs.ConnectValid | websocket_manager.py:38-44 | with a fresh id, `connect` preserves the invariant: the new id is stamped and appears in no other channel |
| RegistryProofs.AppendFresh | websocket_manager.py:43 | appending a pair with a fresh id keeps the list's ids distinct and adds exactly that id |
| RegistryProofs.ConnectDisjoint | websocket_manager.py:38-43 | after `connect` with a fresh id, no id is registered under two channels |
| RegistryProofs.ConnectOrder | websocket_manager.py:38-39 | a lazily created channel is added once at the end of the dictionary order |
| RegistryProofs.ConnectSocketsDistinct | websocket_manager.py:34-44 | connecting a socket registered on no channel keeps every channel's sockets distinct |
| RegistryProofs.RepeatedSocket | websocket_manager.py:34-44 | `connect` itself does not check the socket: connecting one socket twice to a channel registers it twice |
| Registry.IndexOfSocket | websocket_manager.py:55-56 | the position found is the first entry holding the socket, and it is past the end exactly when no entry holds it |
| Registry.RemoveFirst | websocket_manager.py:55-60 | the list without its first entry holding the socket, or the same list when there is none |
| Registry.Disconnect | websocket_manager.py:50-63 | removes only the first entry of the channel holding the socket, with that entry's ledger record; an unknown channel or absent socket changes nothing; other channels keep their lists |
| RegistryProofs.DisconnectAt | websocket_manager.py:55-60 | when the first entry holding the socket is at position `i`, exactly that entry and its id's ledger entry go |
| RegistryProofs.DisconnectRemovesFirst | websocket_manager.py:53-60 | the channel's list after `disconnect` is its list with the first occurrence of the socket removed |
| RegistryProofs.DisconnectAbsent | websocket_manager.py:53-60 | on an unknown channel or an absent socket, `disconnect` is a no-op, and so is repeating it |
| RegistryProofs.DisconnectValid | websocket_manager.py:50-63 | `disconnect` preserves the registry invariant |
| RegistryProofs.RemoveFirstGone | websocket_manager.py:55-60 | when a channel's sockets are distinct, the socket is absent after its first occurrence is removed |
| RegistryProofs.DisconnectSocketsDistinct | websocket_manager.py:50-63 | `disconnect` keeps every channel's sockets distinct |
| Registry.DisconnectAll | websocket_manager.py:91-92 | disconnecting a list of pairs from one channel leaves every other channel and the channel order unchanged |
| RegistryProofs.DisconnectAllValid | websocket_manager.py:91-92 | disconnecting any list of pairs preserves the invariant |
| RegistryProofs.DisconnectAllSocketsDistinct | websocket_manager.py:91-92 | disconnecting any list of pairs keeps every channel's sockets distinct |
| Registry.Broadcast | websocket_manager.py:73-92 | an unknown channel is left alone and nobody is sent anything; otherwise exactly the channel's pairs whose send succeeds receive the message, and other channels are untouched |
| RegistryProofs.BroadcastRemovesExactlyFailed | websocket_manager.py:79-92 | with distinct sockets, the channel afterwards holds exactly the successful pairs in their original order (the delivered list), and the ledger loses exactly the failed pairs' ids |
| RegistryProofs.BroadcastValid | websocket_manager.py:73-92 | `broadcast` preserves the registry invariant |
| Registry.Scan | websocket_manager.py:104-117 | one pass over a channel's copy keeps the ledger's key set and marks or pings each pair at most once |
| RegistryProofs.ScanResult | websocket_manager.py:104-117 | with distinct ids, the evicted pairs are exactly those stale or failing their ping; the pinged pairs are exactly those not stale; the ledger stamps `now` on exactly the successfully pinged ids |
| RegistryProofs.PingAtBoundary | websocket_manager.py:107 | a pair exactly `2 * ping_interval` (60 s) old is still pinged and is kept if the ping succeeds; one microsecond older, it is evicted without a ping |
| Registry.Stale | websocket_manager.py:107-110 | a pair with no ledger entry is stale (the caught `KeyError`); a pair stamped at the sweep time or later is not |
| RegistryProofs.StaleLater | websocket_manager.py:107 | a pair that is stale at some time is stale at every later time while its ledger entry is unchanged |
| Registry.SweepChannel | websocket_manager.py:99-121 | sweeping one channel leaves the other channels, the channel order and `initialized` unchanged |
| RegistryProofs.SweepChannelResult | websocket_manager.py:101-121 | after the sweep, the channel holds exactly its live pairs in order; the pinged pairs are the non-stale ones; the ledger is restamped for live ids and loses the evicted ids |
| RegistryProofs.SweepChannelStamps | websocket_manager.py:112-121 | every pair surviving the sweep was stamped at the sweep time, and every evicted pair has lost its ledger entry |
| RegistryProofs.SweepChannelValid | websocket_manager.py:99-121 | sweeping any channel of any registry satisfying the invariant preserves the invariant |
| RegistryProofs.SweepChannelKeeps | websocket_manager.py:99-121 | with distinct sockets, sweeping a channel also keeps sockets distinct and leaves the ledger entries of other channels' ids unchanged |
| Registry.SweepEach | websocket_manager.py:99 | sweeping a list of channels leaves the channels not in the list unchanged |
| RegistryProofs.SweepEachResult | websocket_manager.py:99-121 | sweeping distinct channels in turn preserves the invariant, and each swept channel ends up with exactly its live pairs |
| RegistryProofs.SweepEachValid | websocket_manager.py:99-121 | sweeping any list of channels preserves the invariant |
| RegistryProofs.SweepEachSocketsDistinct | websocket_manager.py:99-121 | sweeping any list of channels keeps every channel's sockets distinct |
| Registry.PingSweep | websocket_manager.py:97-121 | one sweep keeps the channel keys, the channel order and `initialized` |
| RegistryProofs.PingSweepResult | websocket_manager.py:97-121 | one sweep keeps, in every channel, exactly the pairs that are neither stale nor failing at the sweep time, and every surviving pair is stamped with that time |
| RegistryProofs.PingSweepValid | websocket_manager.py:97-121 | one sweep of any registry satisfying the invariant preserves the invariant |
| Registry.DisconnectEach | websocket_manager.py:130-134 | disconnecting a socket from a list of channels leaves channels outside the list, the key set and the order unchanged |
| RegistryProofs.DisconnectEachResult | websocket_manager.py:130-134 | over distinct channels, each listed channel loses the first occurrence of the socket, and the ledger loses exactly those entries' ids |
| RegistryProofs.DisconnectEachChannels | websocket_manager.py:130-134 | each listed channel's list becomes its list without the socket's first occurrence |
| RegistryProofs.DisconnectEachLedger | websocket_manager.py:130-134 | the ledger loses exactly the ids of the removed entries |
| RegistryProofs.DisconnectEachValid | websocket_manager.py:128-134 | removing a socket from any list of channels preserves the invariant |
| RegistryProofs.DisconnectEachSocketsDistinct | websocket_manager.py:130-134 | removing a socket from any list of channels keeps every channel's sockets distinct |
| Registry.HandleConnectionError | websocket_manager.py:128-134 | handling a connection error keeps the channel keys, the channel order and `initialized` |
| RegistryProofs.HandleConnectionErrorResult | websocket_manager.py:128-134 | every channel loses one occurrence of the socket (no channel holds it afterwards when sockets are distinct), and the ledger loses exactly those ids |
| Registry.SendPersonalMessage | websocket_manager.py:65-71 | a delivered message changes nothing; a failed one keeps the channel keys and order |
| RegistryProofs.SendPersonalMessageValid | websocket_manager.py:65-71 | sending a personal message, delivered or not, preserves the invariant |
| RegistryProofs.SendPersonalMessageResult | websocket_manager.py:65-71 | a delivered message changes nothing; after a failed one every channel has lost the first entry holding the socket, and the ledger has lost exactly those entries' ids |
| RegistryProofs.StepSound | websocket_manager.py:19-134 | each public call (startup, connect with a fresh id and socket, disconnect, personal message, broadcast, ping sweep) preserves the invariant and socket distinctness |
| RegistryProofs.RunSound | websocket_manager.py:19-134 | any sequence of such calls preserves the invariant and socket distinctness |
| RegistryProofs.ReachableSound | websocket_manager.py:12-134 | every registry reachable from a new manager by such calls satisfies the invariant and has distinct sockets in every channel |
| RegistryProofs.ReachablePingSweep | websocket_manager.py:97-121 | on every reachable registry, one sweep keeps in every channel exactly the pairs neither stale nor failing, each stamped with the sweep time |
| ListRegistry.Connect | app.py:64-67 | the socket is appended at the end; the list grows by one and keeps its prefix |
| Tally.IndexOf | app.py:70 | the position of the first occurrence of the socket in the list, past the end when it is absent (the same lookup serves the status list of the report import) |
| ListRegistry.Disconnect | app.py:69-71 | `list.remove` raises exactly when the socket is absent; otherwise it drops the first occurrence and nothing else |
| ListRegistry.DisconnectUndoesConnect | app.py:64-71 | disconnecting a socket just connected to a list that did not hold it gives back the original list |
| ListRegistry.Broadcast | app.py:73-76 | when every send succeeds, each list entry is sent the same text once, in list order |
| ListRegistry.BroadcastReachesAll | app.py:73-76 | a socket receives the broadcast exactly when it is registered |
| ListRegistry.Reply | app.py:189 | the answer starts with `Message received: ` and is the received text after it |
| ListRegistry.Unreply | app.py:189 | the received text can be recovered from exactly the strings that carry the answer prefix |
| ListRegistry.ReplyRoundTrip | app.py:189 | recovering the received text from an answer gives it back, and every answer-shaped string is the answer to its recovered text |
| ListRegistry.EchoLoop | app.py:187-190 | every received text, up to the first failed receive or reply, is answered in order with its echo |
| ListRegistry.Endpoint | app.py:184-193 | a failed handshake leaves the list alone; otherwise the session leaves the same sockets registered (exactly the original list when the socket was new) and each reply echoes the matching received text |
| Analyser.SpecificDistinct | static/analisar_dados_v5.py:45-49 | the eleven specific statuses are pairwise distinct |
| Analyser.Normalize | static/analisar_dados_v5.py:786-792 | a string comes back stripped and upper-case; any other value comes back as its `str()` |
| Analyser.NormalizeIdempotent | static/analisar_dados_v5.py:786-792 | normalising an already normalised string changes nothing |
| Analyser.ColumnName | static/analisar_dados_v5.py:601-615 | every column name is stripped and upper-case |
| Analyser.FalsyHeaderName | static/analisar_dados_v5.py:601-615 | a falsy header cell names its column `COL<i>` after normalisation |
| Analyser.StatusColumn | static/analisar_dados_v5.py:619 | the chosen column is the first whose name contains `SITUACAO`, `STATUS` or `SITUAÇÃO`; there is none exactly when no name does |
| Analyser.MapStatusMoves | static/analisar_dados_v5.py:627-641 | the relabelling changes a label exactly when it is `ANALISE`, which becomes `ANÁLISE`; specific statuses and unknown labels pass through |
| Analyser.MapStatusIdempotent | static/analisar_dados_v5.py:627-641 | relabelling twice is relabelling once |
| Analyser.CleanStatus | static/analisar_dados_v5.py:624 | a missing value becomes `PENDENTE`; every cleaned value is stripped and upper-case |
| Analyser.StatusColumnValues | static/analisar_dados_v5.py:606-624 | one STATUS value per data row; a value that is not an int, or an int in a column pandas keeps as int64, is cleaned as it is; an int in a float64 column (only ints, floats and blanks, with at least one float or blank) is cleaned as its text followed by `.0` |
| Analyser.IntNextToBlank | static/analisar_dados_v5.py:606-624 | in a STATUS column of numbers with a blank, an int `n` reads `n.0` and the blank reads `PENDENTE` |
| Analyser.IntsAlone | static/analisar_dados_v5.py:606-624 | in a STATUS column of ints only, an int `n` reads `n` |
| Analyser.StatusValue | static/analisar_dados_v5.py:624-641 | a final STATUS value is stripped, upper-case and never the unaccented `ANALISE` |
| Analyser.StatusValueIdempotent | static/analisar_dados_v5.py:624-641 | cleaning and relabelling a final STATUS value gives it back |
| Analyser.CountSpecific | static/analisar_dados_v5.py:108-113 | `{}` for an empty frame or one without STATUS; otherwise exactly the eleven specific statuses as keys, each with its row count |
| Analyser.CountSpecificBound | static/analisar_dados_v5.py:108-113 | the specific counts add up to at most the number of rows |
| Analyser.Daily | static/analisar_dados_v5.py:652-665 | `metricas_diarias` has every specific status and every observed label; an observed label has its count, an unseen specific status has 0 |
| Analyser.LoadSheet | static/analisar_dados_v5.py:598-672 | a sheet yields metrics exactly when its STATUS values can be read; then `total_registros` is the number of data rows, `status_counts` is `value_counts` of the cleaned STATUS values, and the daily metrics are built from them |
| Analyser.SheetStatuses | static/analisar_dados_v5.py:598-626 | a sheet's STATUS values, one per data row, are read only when it has a non-empty header, data rows no wider than the header with one exactly as wide, and a status column |
| Analyser.LoadSheetWhen | static/analisar_dados_v5.py:598-626 | a sheet loads exactly when it has a non-empty header and data, no data row is wider than the header and one is as wide, it has a status column, and no other column is named like it or already `STATUS` |
| Analyser.OneStatusColumnIff | static/analisar_dados_v5.py:619-624 | the rename leaves a single `STATUS` column exactly when no other column shares the status column's name or is already called `STATUS` |
| Analyser.ShortRowPendente | static/analisar_dados_v5.py:604-624 | a data row too short to reach the status column is padded with a missing value and reads `PENDENTE` |
| Analyser.LoadSheetMetrics | static/analisar_dados_v5.py:649-672 | a loaded sheet's counts add up to its row count and are over clean labels; its daily metrics give every specific status its count, 0 when unseen |
| Analyser.SheetStatusesClean | static/analisar_dados_v5.py:624-641 | every STATUS value of a loaded sheet is stripped, upper-case and not `ANALISE` |
| Analyser.LoadWorkbook | static/analisar_dados_v5.py:583-672 | a workbook yields at most one entry per sheet |
| Analyser.LoadWorkbookMembers | static/analisar_dados_v5.py:583-672 | the entries are exactly the metrics of the loadable sheets not named `TESTE` or `RELATÓRIO GERAL`, each under its sheet's name |
| Tally.ValueCounts | static/analisar_dados_v5.py:649 | `value_counts` has exactly the values seen as keys, each with its positive number of occurrences |
| Tally.ValueCountsSum | static/analisar_dados_v5.py:649 | the counts of `value_counts` add up to the number of values |
| Validation.InUse | static/analisar_dados_v5.py:1011-1015 | a status is in use exactly when some collaborator of some group has a count for it |
| Validation.SlotsMembers | static/analisar_dados_v5.py:1018-1019 | the validation visits exactly the (group, collaborator) entries of the groups |
| Validation.Fill | static/analisar_dados_v5.py:1024-1039 | every missing specific status is added at 0 to `status_counts` and `metricas_diarias`; existing counts and the record total are kept |
| Validation.FillAll | static/analisar_dados_v5.py:1018-1039 | every collaborator of every group is completed in place, in order and under the same name |
| Validation.Gaps | static/analisar_dados_v5.py:1018-1034 | every key on file holds a non-empty set of missing statuses |
| Validation.GapsStep | static/analisar_dados_v5.py:1033-1034 | one more entry with gaps overwrites its key's gaps; one without gaps leaves the table as it was |
| Validation.GapsLastWriter | static/analisar_dados_v5.py:1018-1034 | the last entry with gaps filed under a key is the one whose gaps the key holds |
| Validation.GapsFiledLast | static/analisar_dados_v5.py:1018-1034 | every key on file was written by the last entry with gaps filed under it |
| Validation.HasCriticalExact | static/analisar_dados_v5.py:1042-1056 | some key holds a critical gap exactly when the last entry with gaps under some key lacks a critical status in use |
| Validation.VerdictExact | static/analisar_dados_v5.py:1042-1056 | whatever the key, the run is refused exactly when the last entry with gaps under some key lacks a critical status in use |
| Validation.AsWrittenExact | static/analisar_dados_v5.py:1018-1056 | the code as written refuses exactly when, for some collaborator name, the last collaborator of that name with gaps lacks a critical status in use |
| Validation.ValidateAsWritten | static/analisar_dados_v5.py:994-1079 | the completed groups are returned with the verdict whose gaps are filed under the collaborator's name |
| Validation.Validate | static/analisar_dados_v5.py:994-1079 | the completed groups are returned with the verdict whose gaps are filed under the (group, collaborator) pair |
| Validation.RefusalHasGap | static/analisar_dados_v5.py:1042-1056 | whatever the key, a refusal points at a collaborator lacking a critical status that is in use |
| Validation.GapsOfUniqueKeys | static/analisar_dados_v5.py:1033-1034 | when no two entries share a key, each entry with a gap is filed with its own gaps |
| Validation.SlotKeysUnique | static/analisar_dados_v5.py:1018-1019 | with dictionary-unique group and collaborator names, no two entries share a (group, collaborator) pair |
| Validation.ValidateExact | static/analisar_dados_v5.py:1011-1074 | the corrected validation refuses exactly when some collaborator lacks APROVADO, PENDENTE or VERIFICADO while someone uses it |
| Validation.GapRefused | static/analisar_dados_v5.py:1042-1056 | a collaborator with a critical gap makes the corrected validation refuse |
| Validation.AsWrittenRefusalSound | static/analisar_dados_v5.py:1042-1069 | a refusal by the code as written always has a real critical gap behind it |
| Validation.FilledTablesComplete | static/analisar_dados_v5.py:1037-1039 | after validation, every collaborator has a `status_counts` entry for all eleven specific statuses and keeps its name |
| Validation.AsWrittenMissesGap | static/analisar_dados_v5.py:1033-1034 | with two groups each holding an ANA, the first lacking APROVADO, the code as written lets the run through while the corrected validation refuses |
| Totals.Zeros | static/analisar_dados_v5.py:822 | the starting table has every specific status at 0 |
| Totals.AddCounts | static/analisar_dados_v5.py:831-834 | each status total grows by the collaborator's count, 0 when the count is absent |
| Totals.AddGroup | static/analisar_dados_v5.py:822-840 | a group's totals are, per specific status, the sum of its collaborators' counts, and its record total is the sum of their `total_registros`; the running consolidated totals grow by exactly the group's totals |
| Totals.GeneralReport | static/analisar_dados_v5.py:812-858 | each group's totals summarise its collaborators; each consolidated status total is the sum over every collaborator and also the sum of the group totals; the grand record total is the sum of every `total_registros` |
| Totals.TotalsAreGroupSums | static/analisar_dados_v5.py:816-858 | totals that sum every collaborator equal the sums of the group totals |
| Totals.ConsolidatedIsSumOfGroups | static/analisar_dados_v5.py:831-834 | summing a status over all collaborators at once equals summing the groups' sums |
| ReportImport.Zeros | static/analisar_dados_v5.py:1429-1440 | a new record has exactly the eight counters, all at 0 |
| ReportImport.Open | static/analisar_dados_v5.py:1416-1441 | a collaborator line becomes the current collaborator and opens a zeroed record only once a non-empty group is known |
| ReportImport.SetLast | static/analisar_dados_v5.py:1451 | a value goes into the last record opened and fails exactly when none exists; that record gets the value under the key, keeps its other counters, group and collaborator, and earlier records are untouched |
| ReportImport.ColonLine | static/analisar_dados_v5.py:1444-1453 | a line that does not split into exactly two pieces at `:` ends the import with an error; a value that is not an integer, or a piece naming no status, changes nothing; otherwise the value is stored through `SetLast` |
| ReportImport.ColonLineStores | static/analisar_dados_v5.py:1444-1451 | a colon line naming the `i`-th status with an integer value stores the value under `names[i]` in the last record, or fails when no record is open |
| ReportImport.LoweredUpper | static/analisar_dados_v5.py:1451 | each name the code as written stores under differs from its status and upper-cases back to it, as `status.lower()` does |
| ReportImport.Step | static/analisar_dados_v5.py:1404-1453 | one line opens at most one record and changes no record but the last; an error needs a collaborator line before it; records keep a non-empty group and collaborator |
| ReportImport.Run | static/analisar_dados_v5.py:1404-1453 | reading lines adds at most one record per line and changes no earlier record but the last; named records stay named |
| ReportImport.Import | static/analisar_dados_v5.py:1404-1453 | an import yields at most one record per line, each with a non-empty group and collaborator |
| ReportImport.Total | static/analisar_dados_v5.py:1457-1458 | with no negative counter, the stored total is non-negative and at least each counter |
| ReportImport.StatusLine | static/analisar_dados_v5.py:1444-1451 | a recognised status line names one of the eight statuses |
| ReportImport.NotCollaboratorStart | static/analisar_dados_v5.py:1416 | a non-blank line refused by the collaborator branch starts with `=`, `-`, `G` or `R` |
| ReportImport.ColonLineNamesNoStatus | static/analisar_dados_v5.py:1416-1451 | any line that reaches the colon branch names no status, so that branch can never fill a counter |
| ReportImport.AsWrittenStepKeepsZero | static/analisar_dados_v5.py:1404-1453 | as written, reading one line leaves every counter at 0 |
| ReportImport.AsWrittenRunKeepsZero | static/analisar_dados_v5.py:1404-1453 | as written, reading any run of lines leaves every counter at 0 |
| ReportImport.AsWrittenImportsOnlyZeros | static/analisar_dados_v5.py:1404-1458 | whatever the report says, every record the code as written imports has all counters at 0 and a total of 0 |
| ReportImport.AsWrittenOpensOnEveryStatus | static/analisar_dados_v5.py:1416-1441 | as written, every `STATUS: n` line opens a record for a collaborator named after the line |
| ReportImport.AsWrittenMisreadsSample | static/analisar_dados_v5.py:1416-1441 | the report `GRUPO: JULIO / ANA / APROVADO: 3` is imported as two zeroed records, ANA and `APROVADO: 3` |
| ReportImport.TotalCountsEveryStatus | static/analisar_dados_v5.py:1457-1458 | storing a value under a counter name moves the stored total by exactly the change of that counter |
| ReportImport.LoweredKeyUncounted | static/analisar_dados_v5.py:1451-1458 | `status.lower()` is the counter name for six statuses, but ANÁLISE and PRIORIDADE TOTAL lower to names the total never reads |
| ReportImport.StatusLineOf | static/analisar_dados_v5.py:1444-1451 | `STATUS: n` is already stripped, is no group line and is recognised as that status with value `n` |
| ReportImport.CorrectedReadsStatusLine | static/analisar_dados_v5.py:1444-1451 | with a record open, the corrected import stores `n` under that status's counter of the last record and changes nothing else |
| ReportImport.CorrectedAgreesElsewhere | static/analisar_dados_v5.py:1404-1453 | on every line that is not a status line, the corrected import behaves exactly as the code as written |
| ReportImport.CorrectedReadsSample | static/analisar_dados_v5.py:1444-1451 | read as intended, the same sample gives ANA an APROVADO counter of 3 and opens no other record |
| ReportImport.GroupLineRead | static/analisar_dados_v5.py:1408-1409 | `GRUPO: JULIO` sets the current group to `JULIO` |
| ReportImport.AnaLineRead | static/analisar_dados_v5.py:1416 | a plain name line is read as a collaborator line |
| ExcelImport.ConvertToDays | import_excel.py:19-27 | there is no number exactly for a missing value and for a value of any other type, such as a string |
| ExcelImport.ConvertToDaysValues | import_excel.py:19-27 | ints, bools and floats come back as numbers unchanged; a date gives the whole number of days elapsed, floored as Python floors a `timedelta` |
| ExcelImport.DaysOfDate | import_excel.py:24-26 | a date `d` whole days and a few microseconds old counts as `d` days, in the past or the future |
| ExcelImport.Label | import_excel.py:69 | a missing label is `''`; any other label is stripped and upper-case |
| ExcelImport.LabelIdempotent | import_excel.py:69 | normalising a label twice is normalising it once |
| ExcelImport.StatusOf | import_excel.py:55-65 | the nine listed labels get their mapped code; every other label, and only those, gets `other` |
| ExcelImport.StatusOfInjective | import_excel.py:55-65 | two labels with the same mapped code (not `other`) are the same label |
| ExcelImport.UnmappedLabels | import_excel.py:84 | `''`, the unaccented `ANALISE` and `OUTROS ACORDOS` are stored as `other` |
| ExcelImport.PaddedLabel | import_excel.py:69 | a recognised label with whitespace around it still gets its code |
| ExcelImport.RowContract | health_check.py:180-183 | every stored status is one of the ten codes the health check accepts, and the collaborator is the sheet name |
| ExcelImport.ContractNumberInjective | import_excel.py:82 | within one group, equal contract numbers mean the same sheet and the same row index |
| ExcelImport.RowContracts | import_excel.py:68 | a run of rows yields one contract per row |
| ExcelImport.RowContractsShape | import_excel.py:82-83 | contract `i` of a sheet is numbered `grupo-sheet-i` and names the sheet as collaborator |
| ExcelImport.Attempts | import_excel.py:39-104 | a workbook yields exactly one contract attempt per row of its readable sheets |
| ExcelImport.AttemptsShape | import_excel.py:82-83 | every attempt names one of the workbook's sheets and carries a number built from it and a row index |
| ExcelImport.AttemptNumbersDistinct | import_excel.py:82 | with distinct sheet names, no two rows of one file get the same contract number |
| ExcelImport.Labels | import_excel.py:69 | a workbook yields one label per row read |
| ExcelImport.TakeOk | import_excel.py:88-89 | the contracts flushed are the longest prefix the database accepts: all accepted, and the next one refused |
| ExcelImport.FirstRefused | import_excel.py:39-106 | the position of the first sheet holding a refused contract: every sheet before it is fully accepted and it is not |
| ExcelImport.CountsBound | import_excel.py:73-76 | the label counts add up to at most the number of rows read |
| ExcelImport.SkippedSheet | import_excel.py:46-52 | a sheet missing `SITUAÇÃO` or `RESOLUÇÃO` adds no contract and no label |
| ExcelImport.ProcessSheet | import_excel.py:68-104 | for a readable sheet, the contracts flushed are those before the first refusal; the counter is their number; the session needs a rollback exactly when some contract is refused; the label counts cover every row of the sheet |
| ExcelImport.ProcessFile | import_excel.py:36-107 | the file fails exactly when some sheet holds a refused contract; the committed contracts are all the attempts of the sheets before the first such sheet; without a failure the counter is the number committed, the counts are `value_counts` of the non-empty labels and add up to at most the rows read |
| Text.StripIdempotent | static/analisar_dados_v5.py:790 | stripping twice is stripping once |
| Text.UpperIdempotent | static/analisar_dados_v5.py:790 | upper-casing twice is upper-casing once |
| Text.StripUpperCommute | static/analisar_dados_v5.py:624 | upper-casing then stripping gives the same string as stripping then upper-casing |
| Text.SplitCount | static/analisar_dados_v5.py:1445 | `split(':')` yields one more piece than there are colons, so the two-piece unpacking needs exactly one colon |
| Text.JoinSplit | static/analisar_dados_v5.py:1445 | joining the pieces of a split with the separator gives back the line |
| Text.IntRoundTrip | static/analisar_dados_v5.py:1448 | `int()` reads back every integer's `str()` |

## Left out

- Asynchronous scheduling is not modelled: `asyncio.create_task`, `asyncio.sleep`, the endless `while True` of `_ping_clients`, and the awaiting of `accept`, `send_json`, `receive_text` and `send_text`. A ping sweep is one loop iteration, with its time as an argument.
- Logging and every `print` are left out, since they change no state.
- `uuid.uuid4()` is an id argument. Its freshness is the hypothesis `FreshId` of `RegistryProofs.ConnectValid`, because the code itself never checks it.
- Time is an integer count of microseconds. The float test `total_seconds() > 60` becomes an integer comparison in microseconds, which is exact at the resolution of `datetime`.
- In `_ping_clients` the only modelled exceptions are the caught `KeyError` of a missing ledger entry (treated as stale) and a failed ping. The outer `except` at websocket_manager.py:123 catches nothing else in the model.
- The failure path of `broadcast` in app.py (lines 77-79) is left out. A failed send calls the synchronous `disconnect`, which removes the socket from the list. Awaiting its result `None` then raises `TypeError`, which ends the broadcast: no later connection gets the message. `update_metrics` catches that error (app.py:116-117). `ListRegistry.Broadcast` covers the success path only.
- Reading the files is not modelled: openpyxl and xlrd. A sheet is its rows of cell values. The xlrd fallback branch of `carregar_dados` (static/analisar_dados_v5.py:690-760) repeats the same per-sheet logic and is not modelled separately.
- `Analyser.StatusColumnValues`: of pandas' per-column dtype inference, only the float64 upcast of ints is modelled. An int larger in magnitude than 2^53 in a float64 column keeps its integer text in the model; Python prints `str(float(n))`, the nearest float, in exponent form from 10^16 on. Every other value is taken to render as its own `str()`.
- Database work is left out: SQLite and SQLAlchemy sessions, `INSERT OR IGNORE` id lookups, commits, and the report date read by regular expression. Whether the database accepts a contract is the oracle `ok`. A refused flush leaves the session needing a rollback, so every later row of the sheet fails too and the sheet's `db.commit()` raises; the model ends the file there, as the outer `except` does. A commit failing for any other reason is not modelled.
- Random and floating-point metrics are left out: `created_at`, the `DailyMetric` values, `produtividade_hora`, `taxa_prioritarios`, `score_eficiencia`, the efficiency figures of the TXT import, and ranking, ML, charts and HTML output.
- `Text.ParseInt`: Python's `int()` also accepts `_` digit separators and non-ASCII digits. The model accepts only ASCII digits with an optional sign, surrounded by whitespace.
- `Text.Upper`: upper-casing is modelled for ASCII and Latin-1 (including `ß` becoming `SS` and `ÿ`, `µ`). Other scripts are not modelled.
- `Validation.FilledTablesComplete`: it states completeness for `status_counts`. For `metricas_diarias` the same follows from `Analyser.Daily` together with `Validation.Fill`, and is not restated.
- `RegistryProofs.BroadcastRemovesExactlyFailed`: it assumes distinct sockets in the channel. When one socket is registered twice, `disconnect` by socket can remove a different pair than the one that failed.
- `RegistryProofs.SweepChannelResult`: it assumes distinct ids and distinct sockets in the channel. `RegistryProofs.ReachableSound` shows that every registry reachable from a new manager has both.
- `RegistryProofs.SweepChannelStamps`: it assumes distinct ids and distinct sockets in the channel, which every reachable registry has (`RegistryProofs.ReachableSound`).
- `RegistryProofs.SweepChannelKeeps`: it assumes distinct sockets, which every reachable registry has (`RegistryProofs.ReachableSound`). Without that assumption, `RegistryProofs.SweepChannelValid` still gives the invariant.
- `RegistryProofs.SweepEachResult`: it assumes distinct sockets, which every reachable registry has (`RegistryProofs.ReachableSound`). Without that assumption, `RegistryProofs.SweepEachValid` still gives the invariant.
- `RegistryProofs.PingSweepResult`: it assumes distinct sockets. `RegistryProofs.ReachablePingSweep` gives the same conclusion on every reachable registry, without that assumption.
- `RegistryProofs.ReachableSound`: a reachable registry is one built by calls where each accepted `connect` brings a fresh id and a socket registered nowhere. `uuid4()` provides the first. The second holds because a socket is accepted only once; `RegistryProofs.RepeatedSocket` shows that `connect` itself does not check it.
- `RegistryProofs.ScanResult`: it assumes distinct ids in the channel. A fresh `uuid4()` per connection provides this.
- `Validation.Validate`: the skip at static/analisar_dados_v5.py:1020-1021 for entries without `status_counts` is not modelled, because every entry built by `carregar_dados` has one.
- `gerar_relatorio_txt` (static/analisar_dados_v5.py:454-456) writes status lines as padded columns without a colon. These are read back as collaborator lines as well. The model states the import's behaviour on the `STATUS: n` format the import expects.
- The per-sheet message at import_excel.py:107 prints the cumulative `total_imported`. The model's counter is that same running total.

## Findings

| source | as written | input that shows it | evidently intended | confidence | as-written member | corrected member |
|---|---|---|---|---|---|---|
| static/analisar_dados_v5.py:1416 | the collaborator branch is tested before the status branch, so every `STATUS: n` line opens a new record named after the line, and the colon branch only sees lines starting with `=`, `-`, `GRUPO:` or `RELATÓRIO`, which name no status | the report `GRUPO: JULIO`, `ANA`, `APROVADO: 3` | ANA's record gets an APROVADO counter of 3 | not executed | ReportImport.AsWrittenMisreadsSample | ReportImport.CorrectedReadsSample |
| static/analisar_dados_v5.py:1451 | the value is stored under `status.lower()`, which for ANÁLISE and PRIORIDADE TOTAL is `análise` and `prioridade total`, keys the total at lines 1457-1458 never reads | a record given `ANÁLISE: 5` keeps a total that leaves the 5 out | the value goes under the counter `analise` or `prioridade_total` and counts in the total | not executed | ReportImport.LoweredKeyUncounted | ReportImport.TotalCountsEveryStatus |
| static/analisar_dados_v5.py:1033-1034 | missing statuses are filed under the collaborator's name alone, so a later same-named collaborator of another group overwrites an earlier one's critical gaps | groups JULIO and LEANDRO each with an ANA; JULIO's ANA lacks APROVADO, LEANDRO's lacks only CANCELADO | the run is refused whenever any collaborator lacks a critical status in use | not executed | Validation.AsWrittenMissesGap | Validation.ValidateExact |
