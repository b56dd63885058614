# Verified model of the AmbientZero sensor firmware

This project models the parts of the AmbientZero sensor firmware (a Raspberry Pi Pico W device) that carry
data across failures, resets and foreign input, and proves what they keep:

- the **OTA update**: two HTTP downloads cut into TCP segments, the update service with its five states and its
  page staging, the NOR flash it programs, and the sector copy over the running image;
- the **configuration store** with its CRC-32, over the same flash model and over whole sequences of boots;
- **deep sleep**, one long sleep cut into watchdog chunks that survive resets in four scratch registers;
- **text in, facts out**: the flat JSON scanner and the server response, the provisioning form and its URL decoding,
  and the back-pressured response sender;
- the **multi-pass WiFi scan**.

## How it is built

Objects whose methods update fields in the firmware are classes (`NorFlash`, `Writer`, `Service`, `Connection`, `Store`,
`PowerManager`, `Sender`, `Scanner`); their loops are loops with invariants, over arrays where the firmware has fixed buffers. Each method is tied by its
`ensures` to a function of the old state (for the update service `Model` and `Polled`, `FirmwareChunk`, ...; for the
store `Loaded`, `Saved`, `Synced`, ...), and the theorems are lemmas about runs of these functions. The page staging is
tied to something simpler than itself: `Service.Valid` says that the pages on flash and the staging buffer are the two
halves of one byte stream, so the run lemmas speak of the stream only.

| file | content |
|---|---|
| `Bytes.dfy`, `Search.dfy` | bytes, little-endian words; strlen, strchr, strstr, strncpy |
| `Crc32.dfy`, `CrcDetection.dfy`, `OnesCrc.dfy` | the CRC loops, the table form, burst detection and the residue, the CRC of bytes 0xFF |
| `Flash.dfy`, `FlashWriter.dfy`, `ApplyUpdate.dfy` | the chip and its layout, staged writing, the sector copy |
| `HttpDownload.dfy` | header stripping |
| `OtaService.dfy`, `OtaRuns.dfy`, `OtaPipeline.dfy`, `OtaFlow.dfy`, `OtaInstall.dfy`, `ManifestTool.dfy` | the update service, its runs, the update end to end as values and as objects, the manifest generator |
| `DeviceConfig.dfy`, `ConfigRuns.dfy` | the store, and whole runs of it |
| `DeepSleep.dfy` | sleep and boot flags |
| `JsonParser.dfy`, `JsonRoundTrip.dfy`, `ServerResponse.dfy` | scanner, printer and round trip, the three facts taken from an answer |
| `MeasurementFlow.dfy` | one measurement cycle, from the answer to the next boot |
| `FormData.dfy`, `PortalRequest.dfy`, `ChunkedSend.dfy` | the portal's form, the request in segments, and the sender |
| `WifiScan.dfy` | the scanner |

Lemmas about one machine word are stated on plain bit-vector expressions; inductions over byte strings `hide` the word
operations and use those lemmas.

## Where the code differs from its documentation

The model follows the code. Differences found, with the member that states each:

- The manifest checksum is never compared: a download is accepted by its length rounded up to whole pages
  (`OtaRuns.VerdictIsLength`), although include/services/ota_service.hpp:13 speaks of verifying integrity.
- After a failed update the retry loop of src/domain/ota/ota_flow.cpp:40-49 never starts another download
  (`OtaRuns.FailureIsFinal`), so the device never boots again by itself (`DeepSleep.LifeIsLog`).
- A header terminator that straddles two segments, or has a NUL before it in its segment, is not seen
  (`HttpDownload.HeaderStripped` gives the exact condition).
- The main region of src/drivers/flash_layout.cpp:32-35 contains the configuration sector, although
  include/drivers/flash_layout.hpp:73-74 says that it never overlaps with the main firmware: an image of more than
  1044480 bytes overwrites it (`ApplyUpdate.ConfigSectorKept`).
- `load_config` answers true on erased flash and writes a default block, although include/config/device_config.hpp:40-41
  says false (`DeviceConfig.Store.LoadConfig`).
- A version sync over a damaged block writes whatever its uninitialised struct held (`ConfigRuns.SyncOverDamage`).
- A version of 0 or of more than 31 characters is rewritten to flash on every boot (`ConfigRuns.SecondSyncSilent`).
- `json_get` matches prefixes (`ServerResponse.LookupIsExact` gives the exact condition for a right answer, `ShadowedId` a wrong
  one), and quoted literals count as literals (`ServerResponse.ResponseUnderstood`).
- Each segment of a portal request is looked at by itself: if the form comes in a second one, empty credentials are stored
  and a reboot is requested (`PortalRequest.EveryCut`; `PostStoresCredentials` gives the exact condition).
- The portal lists `networks`, which holds the last pass only; `masterList`, which collects all passes, has no reader
  (`WifiScan.PortalOffersLastPass`).
- A manifest body of less than 40 bytes announces no byte: the device then applies nothing and resets as after an update; one
  of 80 bytes or more is read differently for different cuts (`OtaPipeline.UpdateVerdict`, `LongManifest`).
- Hidden networks are stored under the name `[Hidden SSID]`, and `start` during a scan restarts it, although
  include/network/wifi_scan.hpp:17 and :28 say otherwise (`WifiScan.Named`, `WifiScan.Scanner.Start`).
- A scan can no longer come to read as finished exactly when a scheduled pass failed to request its scan
  (`WifiScan.FinishesUnlessWorkerFails`).
- A complete response is closed again by every later sent callback (`ChunkedSend.ClosedAgain`).
- README.md:142 of the repository gives a sleep of 60000 ms, CMakeLists.txt:172 sets 1200000; the sleep theorem holds for every time.

## Conditions taken from the code

- The 32-bit counters of the update must not wrap; this is a `requires` on the chunk handler and on `WriteChunk`; the run lemmas count in unbounded numbers.
- The apply step hard-codes offset 0x00100000, which is the OTA region exactly on a 2 MiB part
  (`ApplyUpdate.HardCodedOffset`), and the image must fit that region.
- The head of a portal request holds no NUL and no text that another handler looks for, and starts with `POST /save` only once
  (`PortalRequest.PostHead`); its segments are not empty.
- Flash sizes are whole multiples of two sectors and below 4 GiB. MAX_WATCHDOG_CHUNK is 8000 (CMakeLists.txt:167).
- Connections call back only between the request that opens them and their own end; the model skips other arrivals.
- The uninitialised struct in `sync_config_version` is an input; on every sound store it is never looked at
  (`ConfigRuns.SameLoad`).

## Model

| member | source | states |
|---|---|---|
| Crc32.DeviceCrc32 | src/config/device_config.cpp:14-24 | the device's bit loop computes the CRC register function over the whole byte string |
| Crc32.ToolCrc32 | src/tools/gen_manifest.cpp:15-25 | the manifest tool's loop computes the same function, so both agree on every input |
| Crc32.CrcIsRfc1952 | src/config/device_config.cpp:14-24 | for every byte string this is the table-driven CRC-32 of section 8 of RFC 1952 |
| Crc32.BitStepLinear | src/config/device_config.cpp:20-21 | the bit step is xor-linear |
| Crc32.BitStepInjective | src/config/device_config.cpp:20-21 | the bit step is injective |
| CrcDetection.BurstDetected | src/config/device_config.cpp:14-24 | two byte strings with one register value that differ only inside 32 consecutive bits are equal |
| CrcDetection.CrcMatchesIffResidue | src/config/device_config.cpp:70-76 | stored CRC equals computed CRC if and only if the register over data and CRC field ends in the fixed residue |
| Flash.NorFlash.RangeErase | src/drivers/flash_writer.cpp:35 | erasing sets exactly the range to 0xFF |
| Flash.NorFlash.RangeProgram | src/drivers/flash_writer.cpp:80 | programming ands the data into exactly the range |
| Flash.ErasedThenProgrammed | src/config/device_config.cpp:103-104 | programming part of a freshly erased range stores the data as given |
| FlashLayout.RegionsDisjoint | src/drivers/flash_layout.cpp:22-50 | configuration sector and OTA region are aligned, adjacent and disjoint, the OTA region ends the flash, and the main region contains the configuration sector |
| FlashWriter.Writer.EraseRegion | src/drivers/flash_writer.cpp:18-40 | the sector loop leaves the whole OTA region erased and the lower half untouched |
| FlashWriter.Writer.WriteChunk | src/drivers/flash_writer.cpp:46-84 | accepted exactly if aligned and within the region; then programs that page, otherwise nothing; lower half untouched |
| ApplyUpdate.ApplyOtaToMain | src/drivers/flash_writer.cpp:118-165 | for every size up to 0x100000: main flash gets the staged bytes, erased up to the sector end, all else unchanged; and after every single erase or program a rerun would still end there |
| ApplyUpdate.CopySector | src/drivers/flash_writer.cpp:136-156 | one turn erases one sector and programs the staged bytes padded to whole pages |
| ApplyUpdate.RamMemcpy | src/drivers/flash_writer.cpp:90-100 | copies the bytes and leaves the rest of the buffer |
| ApplyUpdate.RamMemset | src/drivers/flash_writer.cpp:102-112 | fills exactly the range |
| ApplyUpdate.AppliedIgnoresTarget | src/drivers/flash_writer.cpp:134-157 | the result does not depend on what the overwritten sectors held, so an interrupted copy can be rerun |
| ApplyUpdate.AppliedParts | src/drivers/flash_writer.cpp:134-157 | main [0, n) equals OTA [0, n), the rest of the last sector is 0xFF, the OTA region is unchanged |
| ApplyUpdate.ConfigSectorKept | src/drivers/flash_writer.cpp:134-157 | the configuration sector keeps its contents if and only if the image's sectors stop below it or the bytes written there are the old ones |
| ApplyUpdate.HardCodedOffset | src/drivers/flash_writer.cpp:123 | the hard-coded offset is the OTA region if and only if the flash has 2 MiB |
| HttpDownload.Connection.OnReceive | src/services/http_client_download.cpp:98-155 | what each segment, close or error hands to the chunk and done callbacks |
| HttpDownload.HeaderStripped | src/services/http_client_download.cpp:124-149 | for every segmentation, the deliveries are exactly the bytes after the first CRLFCRLF if and only if some segment holds it whole with no NUL before it, or nothing follows it |
| HttpDownload.NoHeaderNoBody | src/services/http_client_download.cpp:131-144 | a stream without a terminator delivers nothing |
| OtaService.Service.Start | src/services/ota_service.cpp:6-38 | starts only from Idle and resets the download |
| OtaService.Service.Poll | src/services/ota_service.cpp:40-99 | opens the firmware download once, and turns Verify into Done with the length verdict |
| OtaService.Service.HandleManifestChunk | src/services/ota_service.cpp:111-146 | collects 40 bytes over any chunks, drops what is beyond, decodes and sets the firmware size |
| OtaService.Service.OnManifestDone | src/services/ota_service.cpp:18-27 | failure ends the update, success moves to the firmware download |
| OtaService.Service.HandleFirmwareChunk | src/services/ota_service.cpp:148-186 | the region stays the page-floored prefix of the received stream with 0xFF above, the rest is staged, each page is programmed once in order, and the announced size pads the last page and moves to Verify; nothing below the region changes |
| OtaService.Service.StorePage | src/services/ota_service.cpp:165-170 | a full staging page extends the programmed prefix by itself, or changes nothing beyond the region |
| OtaService.Service.OnFirmwareDone | src/services/ota_service.cpp:64-85 | a normal end pads and stores the last page, a failure leaves the image and ends the update |
| OtaService.PagesOnce | src/services/ota_service.cpp:165-170 | the programmed offsets are all pages below the mark that fit, none twice |
| OtaService.NextPage | src/drivers/flash_writer.cpp:68-80 | programming the next page onto the erased part extends the stored prefix |
| OtaRuns.StepKeepsInv | src/services/ota_service.cpp:6-186 | every call and callback keeps the run invariant and never lowers the rank of the state |
| OtaRuns.RankNeverFalls | src/services/ota_service.cpp:52-98 | over every interleaving the rank never falls and the firmware download starts at most once |
| OtaRuns.SuccessMeansImage | src/services/ota_service.cpp:94-98 | in every reachable state success implies that the received length rounded up to 256 reaches the announced size and that the image starts with the received bytes, continued by 0xFF if short |
| OtaRuns.VerdictIsLength | src/services/ota_service.cpp:64-98 | a normally ended download succeeds if and only if its length rounded up to 256 reaches the announced size |
| OtaRuns.FailureIsFinal | src/domain/ota/ota_flow.cpp:40-49 | after a failure start, poll and callbacks change nothing for ever |
| OtaRuns.StartOnlyFromIdle | src/services/ota_service.cpp:8-9 | once an update has begun another start changes nothing |
| OtaRuns.ChunkingLeavesNoTrace | src/services/ota_service.cpp:148-186 | for a body of exactly the announced size the image is the padded body whatever the chunks and polls |
| OtaFlow.OtaLoop | src/domain/ota/ota_flow.cpp:53-68 | Running, Failed or ReadyToApply, as phase and verdict say, and whether the poll requested the firmware |
| OtaFlow.SetupTurn | src/domain/ota/ota_flow.cpp:23-50 | one turn of the loop: applies exactly on a successful end; the main half of the flash then holds the announced bytes of the image, erased up to the sector end, and what it held above |
| OtaPipeline.ManifestInAnyChunking | src/services/ota_service.cpp:111-146 | a manifest body of less than 80 bytes in any segments, with turns of the loop in between, decodes to its first 40 bytes, or to nothing and size 0 if it is shorter, and nothing is applied |
| OtaPipeline.LongManifest | src/services/ota_service.cpp:111-146 | from 80 bytes on the cut decides: in one chunk the first 40 bytes count, cut behind them the next 40 |
| OtaPipeline.ManifestPhase | src/services/ota_service.cpp:6-62 | after the manifest response, its close and a turn of the loop the firmware download is open with the manifest's size |
| OtaPipeline.FirmwareVerdict | src/services/ota_service.cpp:64-98 | a firmware response, cut anywhere, closed or not, with turns of the loop anywhere in it: the image is applied if and only if the body is long enough for the announced size (rounded up to 256 if closed), and it starts with the body |
| OtaPipeline.UpdateVerdict | src/domain/ota/ota_flow.cpp:23-50 | both responses in turn, for every manifest body of less than 80 bytes and every firmware body: applied if and only if the body is long enough, with the version, size and checksum of the manifest and an image that starts with the body |
| OtaPipeline.AppliesReceived | src/services/ota_service.cpp:94-98 | whatever the network does, closes and errors included: only an image is applied that starts with the received bytes, continued by 0xFF if short, which reach the announced size once rounded up to 256 |
| OtaPipeline.BrokenNeverApplies | src/services/ota_service.cpp:18-70 | whichever connection breaks and however much it has brought: the update has failed, its image is not padded, no further download opens, and nothing is ever applied |
| OtaPipeline.BrokenManifest | src/services/ota_service.cpp:18-27 | if the manifest connection breaks the firmware is never asked for |
| OtaPipeline.BrokenUpdate | src/services/ota_service.cpp:64-70 | for every run that a broken connection interrupts before the image is applied, it never is |
| OtaInstall.OtaSetup | src/domain/ota/ota_flow.cpp:13-51 | on writer, service and connections made anew over a chip with any contents, for any segments, closes, errors and turns of the loop: applies exactly when the run does, and the main half of the flash is unchanged before and is the image, erased padding and its old rest after |
| OtaInstall.UpdateDevice | src/domain/ota/ota_flow.cpp:13-51 | end to end with the tool's manifest: for every firmware that fits, every version and every cut of both responses the update is applied, and main flash is the firmware, erased up to the sector end, with everything above as it was; this is the update event of the configuration runs, and a firmware that stops below the configuration sector leaves the loaded configuration as it was |
| OtaInstall.BrokenOff | src/domain/ota/ota_flow.cpp:13-51 | on the objects: a download that breaks off leaves the whole main half of the flash as it was |
| ManifestTool.GenManifest | src/tools/gen_manifest.cpp:51-71 | the 40 bytes are the packed struct of version field, size and CRC-32 of the firmware, and decode to it |
| ManifestTool.ManifestRoundTrip | src/services/ota_service.cpp:126-144 | every manifest written as the packed struct reads back as itself |
| ManifestTool.ManifestLayout | src/tools/gen_manifest.cpp:56-71 | version, size and checksum stand at bytes 0, 32 and 36, for the tool and for the device |
| Search.VersionFieldText | src/tools/gen_manifest.cpp:58-59 | the version field reads back as the first 31 characters of the version |
| DeviceConfig.Store.IsFlashErased | src/config/device_config.cpp:38-50 | true exactly if all 196 bytes are 0xFF |
| DeviceConfig.Store.LoadConfig | src/config/device_config.cpp:55-81 | erased flash: a default block is written and returned; a good CRC: the stored fields; a bad one: false and the caller's struct kept; writes only in the first case |
| DeviceConfig.Store.SaveConfig | src/config/device_config.cpp:86-107 | the sector becomes the block with its CRC and 0xFF behind, by one erase and one program |
| DeviceConfig.Store.SyncConfigVersion | src/config/device_config.cpp:109-125 | the new contents, and exactly when nothing is written |
| DeviceConfig.Store.SavePortal | src/services/network/http_server.cpp:326-335 | both credentials replaced up to the last byte of their fields |
| DeviceConfig.Store.AssignId | src/domain/http_flow.cpp:83-95 | an identifier is written only over an empty one |
| DeviceConfig.SavedBlock | src/config/device_config.cpp:86-107 | a save writes the block and 0xFF behind it, and nothing outside the configuration sector |
| DeviceConfig.BlockLayout | include/config/device_config.hpp:22-29 | id, ssid, password, version and CRC stand at bytes 0, 64, 96, 160 and 192 |
| DeviceConfig.LoadAfterSave | src/config/device_config.cpp:55-107 | a load after a save of any configuration returns the saved fields with the right CRC and writes nothing |
| DeviceConfig.NeverBlank | src/config/device_config.cpp:38-50 | no saved block is all 0xFF, so none is taken for erased flash |
| OnesCrc.OnesFailTheCrc | src/config/device_config.cpp:14-24 | the CRC-32 of 192 bytes 0xFF is not 0xFFFFFFFF |
| DeviceConfig.SaveAfterLoad | src/config/device_config.cpp:70-107 | saving the fields a block holds writes the same block if and only if that block passes the check |
| DeviceConfig.BurstInBlockDetected | src/config/device_config.cpp:70-76 | two blocks that pass the check and differ only inside 32 consecutive bits, CRC field included, are equal |
| DeviceConfig.FourBytesDetected | src/config/device_config.cpp:70-76 | in particular no change of up to four consecutive bytes passes |
| ConfigRuns.RunCycle | src/app/app_main.cpp:35-38 | version sync, load and identifier assignment of one measurement cycle |
| ConfigRuns.EventIsSound | src/config/device_config.cpp:55-125 | every writer, and an update that stops below the sector, keeps the store sound and a non-empty identifier unchanged |
| ConfigRuns.RunIsSound | src/config/device_config.cpp:55-125 | over every run of cycles, portal saves, loads and updates: every load succeeds, every text field ends in NUL, a non-empty identifier never changes |
| ConfigRuns.RunFromErasedSector | src/config/device_config.cpp:55-125 | from an erased configuration sector, whatever the rest of the flash holds: at every point of every run loads succeed with terminated fields, and an identifier found there is there at every later point |
| ConfigRuns.SameLoad | src/config/device_config.cpp:55-81 | what the caller's struct held matters if and only if a block that is not erased fails the check; on a sound store it never does |
| ConfigRuns.CycleKeepsCredentials | src/domain/http_flow.cpp:83-95 | a measurement cycle, also one that stores an identifier, keeps both credentials, and the version its sync left |
| ConfigRuns.RunKeepsFields | src/config/device_config.cpp:55-125 | over every run: credentials change at a portal save only, version and identifier at a cycle only |
| ConfigRuns.ErasedIsBlank | src/config/device_config.cpp:38-50 | an erased sector reads as never written, and only 196 bytes 0xFF do |
| ConfigRuns.ErasedLoadsEmpty | src/config/device_config.cpp:57-66 | loading from an erased sector succeeds with four empty fields and leaves a block that is not erased |
| ConfigRuns.DamageRefused | src/config/device_config.cpp:68-80 | a saved block changed within four consecutive bytes is refused by the load, which writes nothing and keeps the caller's struct, if and only if it is not all 0xFF, which terminated fields rule out |
| ConfigRuns.SyncOverDamage | src/config/device_config.cpp:109-125 | a version sync over a damaged block writes the fields of its uninitialised struct with the running version, or nothing if that struct happens to hold it |
| ConfigRuns.PortalOverDamage | src/services/network/http_server.cpp:326-335 | a portal save over a damaged block leaves a sound store with the credentials and no identifier |
| ConfigRuns.PortalStores | src/services/network/http_server.cpp:321-335 | after a portal save a load returns the credentials cut to 31 and 63 characters, identifier and version as before |
| ConfigRuns.SyncStoresVersion | src/config/device_config.cpp:117-124 | after a sync the stored version reads as the running one cut to 31 characters |
| ConfigRuns.FirstIdStored | src/domain/http_flow.cpp:83-95 | the first identifier a response brings is stored, cut to 63 characters |
| ConfigRuns.SecondSyncSilent | src/config/device_config.cpp:109-125 | a second sync writes nothing if and only if the version has 1 to 31 characters |
| ConfigRuns.UpdateKeepsConfig | src/drivers/flash_writer.cpp:134-157 | whatever is staged, an image that stops below the configuration sector keeps the configuration |
| DeepSleep.PowerManager.GetBootFlag | include/services/scratch_handler.hpp:71-86 | the flag of the register, any other value reading as none |
| DeepSleep.PowerManager.SetBootFlag | include/services/scratch_handler.hpp:59-64 | writes the flag and no other register |
| DeepSleep.PowerManager.RequestDeepSleep | src/system/power_manager.cpp:47-65 | the registers of a request, with and without a pending update |
| DeepSleep.PowerManager.ContinueDeepSleep | src/system/power_manager.cpp:67-104 | the time slept at boot and the registers afterwards |
| DeepSleep.PowerManager.Boot | src/app/main.cpp:37-54 | sleep, update branch with the flag cleared, or normal boot |
| DeepSleep.PowerManager.EndCycle | src/domain/http_flow.cpp:105-108 | the update flag is set before the sleep request sees it |
| DeepSleep.SleepRun | src/system/power_manager.cpp:67-104 | from any requested registers the sleeping boots sum up to what the registers say, then one normal boot with the flag cleared |
| DeepSleep.SleepIsConserved | src/system/power_manager.cpp:47-104 | the device sleeps exactly the requested time, in quotient plus (for a remainder) one chunks of at most 8000 ms, if and only if the quotient fits 32 bits |
| DeepSleep.LifeIsLog | src/app/main.cpp:37-98 | boots and cycles in turn, for any list of cycles and however many boots: a cycle with an update is followed by one chunk of sleep and the update branch, then by a normal boot if the image is applied and by nothing any more if not; any other cycle by its own sleep in chunks and a normal boot |
| DeepSleep.CyclesAreConserved | src/app/main.cpp:37-98 | up to and including the first update that is not applied, the update branch is entered once for each cycle that asks for it, and the time slept is what the cycles ask for if and only if every quotient fits 32 bits; those are all cycles if and only if every update asked for before the last cycle is applied |
| JsonParser.ParseJsonPairs | src/protocol/json_parser.cpp:8-80 | fills the array with the scanned pairs up to the limit and leaves the rest |
| JsonParser.ScanIsSafe | src/protocol/json_parser.cpp:13-77 | for every text each key and value slice lies inside it, key before value, each pair behind the one before |
| JsonParser.JsonGet | src/protocol/json_parser.cpp:85-127 | the first pair whose key starts with the text looked for, and its type; otherwise the caller's value is kept |
| JsonRoundTrip.MemberScanned | src/protocol/json_parser.cpp:15-76 | one printed member is scanned to its key, value and end, whatever follows |
| JsonRoundTrip.TokenNeedsBreak | src/protocol/json_parser.cpp:62-71 | unquoted text, be it empty, is scanned as printed if and only if the text ends behind it or goes on with a comma, a closing brace, a space or a line end |
| JsonRoundTrip.NumberNeedsEnd | src/protocol/json_parser.cpp:62-71 | a number is scanned as printed if and only if the text ends behind it or goes on with `,`, `}`, a space, LF or CR |
| JsonRoundTrip.SpaceIsSkipped | src/protocol/json_parser.cpp:29-30 | exactly spaces, tabs, LF and CR are skipped in front of a value |
| JsonRoundTrip.NoKeyEnds | src/protocol/json_parser.cpp:15-21 | no quote or a single one ends the scan |
| JsonRoundTrip.NoColonEnds | src/protocol/json_parser.cpp:23-25 | a key without a colon behind it ends the scan |
| JsonRoundTrip.OpenStringEnds | src/protocol/json_parser.cpp:37-45 | a string value without its closing quote ends the scan |
| JsonRoundTrip.PrintedObjectScanned | src/protocol/json_parser.cpp:8-80 | a printed object behind any quote-free prefix is scanned to its pairs in order, up to the limit |
| JsonRoundTrip.PairsReadBack | src/protocol/json_parser.cpp:73-76 | the slices of those pairs read back as keys and values |
| ServerResponse.ParseServerResponse | src/protocol/server_response.cpp:6-64 | the fields are what the pairs of the text say |
| ServerResponse.GetIsLookup | src/protocol/json_parser.cpp:90-123 | looking up a printed object finds the first member whose key extends the one looked for, with its type |
| ServerResponse.ResponseUnderstood | src/protocol/server_response.cpp:14-61 | for every printed object the parser concludes exactly what its first eight members say |
| ServerResponse.LookupIsExact | src/protocol/json_parser.cpp:90-96 | the lookup finds the value under the key itself if and only if no key that extends it stands in front with another value, and nothing if no key extends it |
| ServerResponse.ResponseRecovered | src/protocol/server_response.cpp:14-61 | the identifier comes through if and only if no other key shadows it, it has 1 to 63 characters and is no literal; a flag, if and only if the first member whose key extends its key says the same |
| ServerResponse.ShadowedId | src/protocol/json_parser.cpp:92 | an answer in which a key `DeviceIdOld` in front is taken for the identifier |
| MeasurementFlow.UseAnswer | src/domain/http_flow.cpp:62-108 | an answer stores its identifier over an empty one and sets the boot flag if it asks for an update; no answer changes nothing |
| MeasurementFlow.NormalBoot | src/app/app_main.cpp:30-66 | a whole cycle on the objects: flash and registers are those of the cycle event and of the sleep request |
| MeasurementFlow.AnswerTakesEffect | src/domain/http_flow.cpp:62-108 | for every printed answer on every sound store: the next load returns the identifier the device had, or else the one the answer brings, or else none; the next boot finds an update pending if and only if the answer asks for it |
| FormData.UrlDecode | src/services/network/http_server.cpp:279-304 | the loop computes the decoding function |
| FormData.DecodeEncode | src/services/network/http_server.cpp:279-304 | decoding undoes the serializer of section 5.2 of the WHATWG URL Standard, for every byte string |
| FormData.NulEscapeCuts | src/services/network/http_server.cpp:286-292 | the first escape cuts the stored string in front of it if and only if it reads as zero: zeros, or no digit behind an optional sign or space |
| FormData.PlainDecodes | src/services/network/http_server.cpp:284-301 | text without percent and plus signs decodes to itself |
| FormData.EscapeReads | src/services/network/http_server.cpp:286-292 | an escape with two digits, in either case, decodes to its byte |
| FormData.ShortEscapeReads | src/services/network/http_server.cpp:288-290 | escapes with one digit, in front of anything or behind a space or sign, and escapes without |
| FormData.FormRoundTrip | src/services/network/http_server.cpp:265-323 | for all byte strings and either field order, extracting and decoding returns what was typed |
| PortalRequest.CutDecodes | src/services/network/http_server.cpp:279-304 | the first bytes of an encoded value decode to it if and only if all are there, or all but two and it ends in a percent sign or in a percent sign and a 2 |
| PortalRequest.CutForm | src/services/network/http_server.cpp:265-323 | of a form cut off anywhere both fields come back if and only if enough of both values is there, in that sense |
| PortalRequest.HandlePostSave | src/services/network/http_server.cpp:306-349 | a request with a blank line saves the credentials behind it and asks for a reboot, any other changes nothing |
| PortalRequest.OnReceive | src/services/network/http_server.cpp:203-263 | only a segment that starts with POST /save and holds none of the probe texts in its first 2047 bytes touches the flash |
| PortalRequest.OtherRequestsIgnored | src/services/network/http_server.cpp:93-262 | any number of segments of which none starts with POST /save, or that show a probe text, leave the flash alone and ask for no reboot |
| PortalRequest.EveryCut | src/services/network/http_server.cpp:203-349 | for every way the request is cut into segments: only what the first one brings of the form is stored, nothing if it ends before the end of the blank line |
| PortalRequest.PostStoresCredentials | src/services/network/http_server.cpp:203-349 | from the browser to the store, for every cut: what a load afterwards returns, identifier and version untouched, and that both fields are read as typed if and only if enough of both values is in the first segment; empty ones if it ends behind the blank line |
| ChunkedSend.Sender.ContinueSend | src/services/network/http_server.cpp:411-440 | the loop over 512-byte writes, for every list of write results |
| ChunkedSend.SendIsOrderly | src/services/network/http_server.cpp:411-511 | for every body and every sequence of results and callbacks the accepted bytes are a prefix, and the connection is only closed with the whole body accepted |
| ChunkedSend.ContinuedExactly | src/services/network/http_server.cpp:411-440 | one call: 512 bytes for each write taken before the first that is not, a close if that reaches the end, an abort if and only if a hard error comes before it |
| ChunkedSend.OffsetNeverFalls | src/services/network/http_server.cpp:467-482 | further callbacks never lower the offset |
| ChunkedSend.SendCompletes | src/services/network/http_server.cpp:411-440 | if every call gets one write accepted, one call per 512 bytes suffices to send all and close |
| ChunkedSend.ClosedAgain | src/services/network/http_server.cpp:467-482 | every callback after completion closes again |
| WifiScan.Scanner.Start | src/services/network/wifi_scan.cpp:20-35 | a fresh scan with the worker scheduled, also in the middle of another |
| WifiScan.Scanner.Worker | src/services/network/wifi_scan.cpp:49-62 | begins a pass unless one is open; a failed request leaves none |
| WifiScan.Scanner.ScanCallback | src/services/network/wifi_scan.cpp:64-99 | a result is stored if its name is new and there is room, a null result finishes the pass |
| WifiScan.Scanner.MergeIntoMaster | src/services/network/wifi_scan.cpp:130-146 | the nested loops add the networks of the pass to the master list one by one |
| WifiScan.Scanner.FinishScan | src/services/network/wifi_scan.cpp:148-167 | an open pass is merged and counted once, and the next one scheduled if any is left |
| WifiScan.Scanner.Poll | src/services/network/wifi_scan.cpp:37-47 | a full list or a timeout finishes the open pass |
| WifiScan.Scanner.IsFinished | src/services/network/wifi_scan.cpp:169-171 | no pass open and none outstanding |
| WifiScan.FirstSeenMeaning | src/services/network/wifi_scan.cpp:84-96 | the first-seen list has no repeats, every name of its input, and each entry is the first of its name |
| WifiScan.AddAllIsFirstSeen | src/services/network/wifi_scan.cpp:84-96 | storing results one by one builds the first-seen list cut at 32 |
| WifiScan.MergeKeptIsMergeAll | src/services/network/wifi_scan.cpp:130-146 | merging the at most 32 networks a pass kept is the same as merging all its results |
| WifiScan.ScanIsConserved | src/services/network/wifi_scan.cpp:20-171 | over every interleaving: a begun pass is finished at most once, finished and remaining passes make up the request, `networks` is at all times the first-seen list of the results since the last pass began and the master list that of all finished passes, both cut at 32, without repeats and with proper names |
| WifiScan.NamedStandsFor | src/services/network/wifi_scan.cpp:72-96 | a result is stored under the name seen, up to a NUL, with its security; only an empty name under the common one |
| WifiScan.PortalOffersLastPass | src/services/network/http_server.cpp:351-366 | whenever a started scan reads as finished: each network the portal shows has the name and security of the first result of that name in the last pass, each result of that pass is shown unless there are 32, and all of these are results that were seen |
| WifiScan.PassEnds | src/services/network/wifi_scan.cpp:37-47 | a poll ends an open pass if and only if the time is over or 32 networks are listed, the last result always |
| WifiScan.FinishedMeansAllPasses | src/services/network/wifi_scan.cpp:148-171 | finished reads true exactly when as many passes are finished as were requested (for a request of none, also only while no pass is open) |
| WifiScan.CanFinishWhen | src/services/network/wifi_scan.cpp:148-171 | a scan can still come to read as finished if and only if a pass is scheduled or open or none is left |
| WifiScan.FinishesUnlessWorkerFails | src/services/network/wifi_scan.cpp:49-62 | after any run of a started scan: it can still finish if and only if no scheduled worker has failed to request its pass |

## Left out

- lwIP, CYW43, I2C, ADC, PWM and clock calls, and the lifetimes of their objects: their results are inputs of the model.
- Real time, interrupts, RAM placement, the reset write to AIRCR, LED and WiFi power cycling: no functional content.
- HTML assets, template injection, captive-portal replies, DNS and DHCP, the AHTx driver, the button and the JSON request client: small or fixed in layout, they would add only easy members.
- The header that `startChunkedSend` writes first, and `sendResponse` with its static state: only the body of a chunked response is counted.
- `computeDiff` and `previousNetworks` of the WiFi scan: nothing calls them; the sorting for the portal page is presentation.
- `get_int`: atoi of a slice, unused by the response parser.
- Power loss inside a save of the configuration: a save is atomic here. The update's copy is proved restartable after every flash operation.
- The load and the WiFi connection at the start of `ota_setup`: the model begins with its loop, over any finite traffic.
- OtaService.Service.HandleFirmwareChunk: requires that the 32-bit counters do not wrap, as the code gives no other meaning to an image of 4 GiB.
- FlashWriter.Writer.WriteChunk: requires that offset and length do not wrap the 32-bit sum, for the same reason.
- ApplyUpdate.ApplyOtaToMain: requires the 2 MiB part and an image within the OTA region, the only ones for which the hard-coded offset is right.
- OtaFlow.SetupTurn: requires the 2 MiB part and, where it applies, an image within the OTA region; of the verdict it requires what `OtaRuns.SuccessMeansImage` proves of every run.
- OtaInstall.OtaSetup: requires the 2 MiB part, traffic that does not wrap the 32-bit counters and, if it comes to applying, an image within the OTA region.
- JsonRoundTrip.PrintedObjectScanned: flat objects without escapes, since the scanner knows neither nesting nor escapes; arbitrary text is covered by `JsonParser.ScanIsSafe`.
