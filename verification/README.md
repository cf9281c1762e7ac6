# AniGiffy core in Dafny

AniGiffy is a web application that turns uploaded images into animated
GIFs. A user's work lives in a session directory. It holds uploads and saved
projects. A project is a named, ordered timeline of frames plus seven
settings: width, height, loop count, default duration, transparency mode,
background colour and alpha threshold. This Dafny project models the
application's core as pure functions over immutable datatypes and proves
what that core promises.

| file | module | models |
|---|---|---|
| `config.dfy` | `Config` | the quota, lifetime and extension constants of `config.py` |
| `results.dfy` | `Results` | `Option` for `None` returns, `Result` for raised exceptions |
| `text.dfy` | `Text` | Python string operations used by the core: `str(n)`, `join`, `split`, `lower`, `lstrip`, clamping slices |
| `pure_path.dfy` | `PurePaths` | lexical `pathlib` paths: parsing, `str()`, `/`, `Path(*parts)`, `resolve()` without symbolic links |
| `project.dfy` | `Projects` | `Frame` and `Project`: timeline edits, settings updates, the dictionary shape, `validate` |
| `image_processor.dfy` | `ImageProcessor` | the upload-name check, the decode checks, the contain/cover arithmetic, `hex_to_rgb`, the alpha rule of `prepare_frame` |
| `quota_manager.dfy` | `Quota` | the `check_*` predicates, `get_remaining_quota`, `can_upload` |
| `session_manager.dfy` | `Sessions` | session directory, `safe_path`, expiry, cleanup selection, deletion |
| `gif_builder.dfy` | `GifBuilder` | `build_gif` and `create_preview_gif`, with the image library abstracted |

Some things are not computed by the model but supplied to it:

- **Time and identifiers.** The current time (`now`) and the uuid-derived frame-id tokens are parameters.
- **The filesystem.** Existence and modification times are inputs. A session directory's status is an `Option<Entry>`. The data directory's children are a `Listing` map.
- **Pillow.** Decoding, LANCZOS resampling, the float aspect ratio of `cover`, partial-alpha blending, palette quantisation and GIF writing are function-typed fields of `ImageProcessor.Pillow` and `GifBuilder.Env`. Nothing is assumed about them.
- **Raised exceptions.** These become `Result.Err` or an explicit outcome constructor. They do not become preconditions.

## Model

| member | source | states |
|---|---|---|
| `Projects.MakeFrame` | models/project.py:10-13 | a frame keeps its file and duration; an id that is missing or empty is replaced by a fresh "frame-" id, any other id is kept |
| `Projects.AddFrame` | models/project.py:50-58 | exactly one frame is appended at the end; earlier frames are unchanged; the duration is the project default when none is given; only `modified` changes among the other fields |
| `Projects.FramesWithout` | models/project.py:60-63 | a frame is kept iff its id differs from the argument; an absent id leaves the timeline unchanged |
| `Projects.FramesWithoutAppend` | models/project.py:60-63 | removal distributes over concatenation, so kept frames stay in their original relative order |
| `Projects.RemoveFrame` | models/project.py:60-63 | the new timeline is the filtered one; name, created and settings are untouched |
| `Projects.AddThenRemove` | models/project.py:50-63 | removing the frame just added, when its fresh id was unused, restores the old timeline |
| `Projects.LastWithId` | models/project.py:67-68 | the id map built by the dict comprehension holds the last frame with each id |
| `Projects.Reordered` | models/project.py:65-77 | the result has at most one frame per listed id, and every frame comes from the old timeline with a listed id |
| `Projects.ReorderFrames` | models/project.py:65-77 | only the timeline and `modified` change |
| `Projects.ReorderedAppend` | models/project.py:71-74 | reordering by a concatenated id list is the concatenation of the two reorderings |
| `Projects.ReorderedRepeatsListedId` | models/project.py:71-74 | an id listed twice yields its frame twice, because the list is not deduplicated |
| `Projects.ReorderedByExistingIds` | models/project.py:65-77 | with unique frame ids and only existing ids listed, frame i of the result has the i-th listed id |
| `Projects.ReorderedPermutes` | models/project.py:65-77 | reordering by a rearrangement of the timeline's own ids yields a permutation of the timeline, in the listed order |
| `Projects.ReorderedIdentity` | models/project.py:65-77 | reordering by the timeline's own ids is the identity |
| `Projects.FirstIndexOf` | models/project.py:81-82 | finds the first frame with the id, and None iff there is none |
| `Projects.UpdateFrame` | models/project.py:79-89 | only the first frame with a matching id can change, and only in the supplied fields; with no match it returns None and changes nothing, not even `modified` |
| `Projects.UpdateFrameNothingSupplied` | models/project.py:79-89 | an update with no fields leaves the timeline as it is |
| `Projects.ApplySettings` | models/project.py:91-106 | each supplied key overwrites its entry; every other entry keeps its value |
| `Projects.ApplySettingsLaws` | models/project.py:91-106 | applying a full dictionary replaces the settings; applying no keys is the identity; applying twice equals applying once |
| `Projects.UpdateSettings` | models/project.py:91-108 | only the settings and `modified` change |
| `Projects.FrameFromDict` | models/project.py:22-28 | a missing 'file' raises KeyError; a missing duration becomes 100 |
| `Projects.SettingsFromDict` | models/project.py:136-146 | missing settings keys take the constructor defaults 800/600/0/100/False/'#FFFFFF'/128 |
| `Projects.FromDict` | models/project.py:133-156 | a missing 'name' raises KeyError; missing timestamps become `now`; frames are read in order |
| `Projects.FromDictToDict` | models/project.py:114-122 | reading back a stored project reproduces name, timestamps, all seven settings and every frame in order, when no frame id is empty |
| `Projects.FromDictDefaults` | models/project.py:133-156 | a dictionary with only a name reads as a default, empty project |
| `Projects.FrameToDict` | models/project.py:15-20 | a frame's dictionary always reads back, and reads back as the same frame when its id is non-empty |
| `Projects.SettingsToDict` | models/project.py:114-122 | every settings key is written, and reading the dictionary back gives the same settings |
| `Projects.ToDict` | models/project.py:114-122 | name, timestamps and settings are written, and one frame dictionary per frame in timeline order |
| `Projects.FramesFromDicts` | models/project.py:150-153 | the frames are read in order, one per dictionary; reading fails iff some dictionary lacks 'file' |
| `Projects.DurationErrors` | models/project.py:186-188 | one error per frame with duration below 1, in timeline order |
| `Projects.Validate` | models/project.py:170-190 | valid iff no errors iff width, height and frame count are within limits and every duration is at least 1; the errors are exactly the limit errors (width, height, count, each present iff its limit is exceeded) followed by one duration error per offending frame in timeline order |
| `ImageProcessor.LastIndexOf` | services/image_processor.py:18 | finds the last occurrence of the character, and None iff there is none |
| `ImageProcessor.Suffix` | services/image_processor.py:18 | `Path.suffix` is non-empty iff a dot occurs after the first character and the name does not end in a dot; it is then the tail from the last dot |
| `ImageProcessor.FileName` | services/image_processor.py:18 | `Path.name` has no '/' and is never "."; a name without '/' other than "." is its own file name |
| `ImageProcessor.ValidateFileExtension` | services/image_processor.py:16-19 | accepted iff the final component has a dot that is neither its first nor its last character, no dot follows it, and the lower-cased text after it is png, jpg, jpeg, gif or webp |
| `ImageProcessor.ExtensionOf` | services/image_processor.py:18-19 | `lstrip('.')` of the lower-cased `Path.suffix` is allowed iff that last-dot condition holds |
| `ImageProcessor.PlainNameExtension` | services/image_processor.py:16-19 | a name `stem.ext` with a non-empty stem is accepted iff its lower-cased extension is allowed |
| `ImageProcessor.DotOnlyNameRejected` | services/image_processor.py:16-19 | a hidden-file name such as ".png" has no suffix and is rejected |
| `ImageProcessor.TrailingDotRejected` | services/image_processor.py:16-19 | a name ending in a dot is rejected |
| `ImageProcessor.LoadAndValidate` | services/image_processor.py:21-49 | an unreadable file gives "Invalid image file"; an unsupported format is reported before any dimension error; oversized sides give the "Image dimensions WxH exceed maximum 2000" message; success iff the format is png/jpeg/gif/webp and both sides are at most 2000 |
| `ImageProcessor.LoadedFormatIsAllowedExtension` | services/image_processor.py:16-49 | the format of every accepted image, lower-cased, is an allowed upload extension, so a file named after it passes the upload-name check |
| `ImageProcessor.CentreOffsetCentres` | services/image_processor.py:79-80 | for a thumbnail that fits, the offset keeps it inside the canvas, and the two margins differ by at most one pixel |
| `ImageProcessor.PasteOnClear` | services/image_processor.py:76-82 | the canvas is exactly the target size; pasted pixels are shifted by the offset; everything else is transparent |
| `ImageProcessor.ContainResize` | services/image_processor.py:71-83 | a contain result is exactly tw x th |
| `ImageProcessor.ContainKeepsThumbnail` | services/image_processor.py:71-83 | the canvas is exactly the target size; every thumbnail pixel lands on it at the centring offset; every other canvas pixel is transparent |
| `ImageProcessor.PasteKeepsImage` | services/image_processor.py:76-82 | an image pasted wholly inside the canvas appears there unchanged and every other canvas pixel is clear, for any in-range offset |
| `ImageProcessor.CoverBox` | services/image_processor.py:102-108 | the crop box is exactly tw wide and th high |
| `ImageProcessor.CoverBoxInside` | services/image_processor.py:102-108 | for a resized image at least the target size, the box lies inside it and trims opposite sides evenly to within a pixel |
| `ImageProcessor.Crop` | services/image_processor.py:108 | an inverted box fails; otherwise the result has the box's size and shows the source pixels under the box |
| `ImageProcessor.ResizeImage` | services/image_processor.py:56-116 | contain, cover and fill results are exactly the target size; fill behaves as contain |
| `ImageProcessor.ParseHexField` | services/image_processor.py:121 | `int(s, 16)` of a field of at most two characters, after `int()` rewrites non-ASCII white space to ' ' and decimal digits of any script to ASCII digits: the value lies in -15..255, and is the hexadecimal value for two ASCII hex digits |
| `ImageProcessor.DecimalDigitsParse` | services/image_processor.py:121 | two decimal digits of any script (full-width, Arabic-Indic, ...) parse as the two-digit number with those digit values |
| `ImageProcessor.FullWidthDigit` | services/image_processor.py:121 | the full-width digits U+FF10..U+FF19 are decimal digits with values 0..9 |
| `ImageProcessor.FileSeparatorNotSkipped` | services/image_processor.py:121 | U+001C is not skipped as white space by `int()`, so a field holding it does not parse |
| `ImageProcessor.HexToRgb` | services/image_processor.py:118-121 | every channel of a parsed colour lies in -15..255 (a sign is accepted, so "#-1" style fields read as negative); the fields go through the same `int()` rewriting as ParseHexField |
| `ImageProcessor.HexToRgbDigits` | services/image_processor.py:118-121 | after the leading '#'s, six hex digits give the three two-digit values at offsets 0, 2 and 4 |
| `ImageProcessor.HexToRgbIgnoresHashes` | services/image_processor.py:120 | extra leading '#' characters make no difference |
| `ImageProcessor.HexToRgbFormatHex` | services/image_processor.py:118-121 | parsing the `#RRGGBB` spelling of an in-range colour gives the colour back |
| `ImageProcessor.Binarize` | services/image_processor.py:157-173 | dimensions are unchanged; alpha below the threshold gives (0,0,0,0); otherwise the RGB is kept and alpha becomes 255; every output alpha is 0 or 255 |
| `ImageProcessor.BinarizeIdempotent` | services/image_processor.py:163-171 | binarising twice with the same threshold equals binarising once, for every threshold |
| `ImageProcessor.FlattenPixel` | services/image_processor.py:174-179 | an opaque pixel is copied; a clear pixel shows the background; the result is opaque |
| `ImageProcessor.Flatten` | services/image_processor.py:174-179 | flattening keeps the dimensions and treats each pixel as FlattenPixel does |
| `ImageProcessor.PrepareFrame` | services/image_processor.py:123-179 | a frame is prepared iff the file decodes and validates, the contain resize succeeds, and (in opaque mode) the background parses; the image is then the binarised fitted image in transparent mode and the fitted image flattened on the background otherwise; it is exactly tw x th with every alpha 0 or 255, or 255 in opaque mode; it raises iff the background does not parse in opaque mode after load and resize succeed |
| `Quota.CheckStorageQuota` | services/quota_manager.py:13-28 | no session or a failed lookup allows; otherwise allows iff total size < 50 MiB |
| `Quota.CheckImageCountQuota` | services/quota_manager.py:30-45 | no session or a failed lookup allows; otherwise allows iff image count < 50 |
| `Quota.CheckProjectCountQuota` | services/quota_manager.py:47-62 | allows iff stats exist and project count < 10; no session denies |
| `Quota.CheckFileSize` | services/quota_manager.py:64-69 | true iff size <= 10 MiB |
| `Quota.CheckDimensions` | services/quota_manager.py:71-77 | true iff both sides <= 2000 |
| `Quota.CheckFrameCount` | services/quota_manager.py:79-84 | true iff count <= 200 |
| `Quota.CheckOutputSize` | services/quota_manager.py:86-91 | true iff size <= 20 MiB |
| `Quota.DimensionChecksAgree` | services/image_processor.py:51-54 | the quota manager's and the image processor's dimension checks agree |
| `Quota.GetRemainingQuota` | services/quota_manager.py:93-121 | None iff there are no stats; otherwise used and limit as reported |
| `Quota.RemainingBalances` | services/quota_manager.py:100-117 | used + remaining == limit for storage, images and projects; a positive remainder holds iff the matching check allows |
| `Quota.CanUpload` | services/quota_manager.py:123-145 | the first failing check names the message, in the order file size, image count, storage, projected storage ("Adding this file would exceed storage quota" when total + size > 50 MiB); a failed lookup raises; (True, "OK") iff all pass, and an allowed upload always says "OK" |
| `Quota.UploadStaysWithinQuota` | services/quota_manager.py:128-145 | an accepted upload with stats keeps total + size <= 50 MiB and size <= 10 MiB |
| `Sessions.SessionDirOfPlainId` | services/session_manager.py:26-28 | a plain id names the child directory of that name |
| `Sessions.SessionDirOfAbsoluteId` | services/session_manager.py:26-28 | an absolute id replaces the data directory when joined |
| `Sessions.SessionDir` | services/session_manager.py:26-28 | an absolute id replaces the data directory; any other id gives a path that starts with the data directory's components |
| `Sessions.SafePath` | services/session_manager.py:78-90 | success iff the text of the resolved target starts with the text of the resolved base; the result is resolved and free of ".." |
| `Sessions.SafePathPlain` | services/session_manager.py:83-90 | relative parts without ".." give the base followed by exactly those components |
| `Sessions.FromPartsComponents` | services/session_manager.py:84 | plain file names, one per argument, join to themselves |
| `Sessions.SafePathRejectsParent` | services/session_manager.py:83-88 | ".." above a non-root base is refused |
| `Sessions.SafePathAcceptsSibling` | services/session_manager.py:83-88 | as written, "../s1x" from base /data/s1 is accepted, although /data/s1x is not inside the base |
| `Sessions.SafePathContained` | services/session_manager.py:78-90 | the corrected rule accepts iff the base is the target or one of its ancestors, component by component |
| `Sessions.SafePathContainedRejectsSibling` | services/session_manager.py:83-88 | the corrected rule refuses the sibling |
| `Sessions.SafePathContainedRefines` | services/session_manager.py:83-90 | whatever the corrected rule accepts, the written rule accepts with the same path |
| `Sessions.ValidateSession` | services/session_manager.py:60-76 | false for an empty id or a missing directory; otherwise true iff now - mtime <= 168 h |
| `Sessions.CleanupOldSessions` | services/session_manager.py:92-119 | removes exactly the directories with mtime < now - lifetime whose removal succeeds; everything else stays as it was |
| `Sessions.StaleIffExpired` | services/session_manager.py:72 | at the same time, the cleanup's cutoff test and `validate_session`'s expiry test agree |
| `Sessions.CleanupLeavesValidSessions` | services/session_manager.py:97-110 | after cleanup, every remaining removable session validates, and every removed one had expired |
| `Sessions.DeleteSession` | services/session_manager.py:159-172 | true iff the directory existed and its removal succeeded; then only that entry is gone |
| `Sessions.DeletedSessionInvalid` | services/session_manager.py:159-172 | a deleted session no longer validates; other sessions are unaffected |
| `GifBuilder.ProcessFrame` | services/gif_builder.py:49-77 | a frame survives iff its path is accepted, the file exists and preparation returns an image; a survivor is exactly canvas-sized, with every alpha 0 or 255 in transparent mode and 255 otherwise |
| `GifBuilder.KeptPositions` | services/gif_builder.py:46-77 | survivor positions increase, each names a kept frame, and every kept frame appears |
| `GifBuilder.Collect` | services/gif_builder.py:46-77 | prepared images and durations have equal length; entry i of both comes from the frame at the i-th survivor position |
| `GifBuilder.Prepared` | services/gif_builder.py:46-77 | entry i is the image and the duration of the i-th surviving frame of the project |
| `GifBuilder.NoSurvivors` | services/gif_builder.py:79-80 | there are no survivors iff every frame is skipped |
| `GifBuilder.MaskTransparent` | services/gif_builder.py:90-91 | every alpha-0 pixel gets palette index 0; every other pixel keeps its quantised index |
| `GifBuilder.ToPaletteAsWritten` | services/gif_builder.py:85-97 | as written: opaque frames are quantised to 256 colours; in transparent mode alpha-0 pixels are at index 0 and every other pixel keeps its 255-colour index, which may also be 0 |
| `GifBuilder.OpaquePixelAtTransparentIndex` | services/gif_builder.py:85-91 | as written, an opaque pixel that the 255-colour conversion puts at index 0 stays at index 0, the index the file declares transparent |
| `GifBuilder.ReserveIndexZero` | services/gif_builder.py:85-91 | the corrected palette step: a pixel is at index 0 iff it is clear; every other pixel takes its quantised index plus one |
| `GifBuilder.ToPalette` | services/gif_builder.py:85-97 | the corrected conversion the build uses: 256 colours when opaque; in transparent mode index 0 iff the pixel is clear, otherwise the 255-colour index plus one |
| `GifBuilder.TransparentIndexIffClear` | services/gif_builder.py:85-115 | in transparent mode, a pixel of a frame is at index 0, the declared transparent index, iff it is clear |
| `GifBuilder.Stream` | services/gif_builder.py:99-115 | one encoded frame per image in order, the given durations and loop, disposal 2, no optimisation, transparency index 0 iff transparent |
| `GifBuilder.BuildGif` | services/gif_builder.py:15-133 | rejections in the order: no frames, validation (messages joined with ", "), no valid frames; once frames survive, success with the saved size and the written stream iff `save` succeeds within 20 MiB, and "GIF creation failed: " + the error when `save` raises; failures report size 0 |
| `GifBuilder.BuildWritesSurvivors` | services/gif_builder.py:82-118 | a successful build writes one frame and one duration per survivor, in project order, with the project's loop, disposal 2, and transparency index 0 exactly in transparent mode |
| `GifBuilder.WrittenClearPixelsTransparent` | services/gif_builder.py:85-118 | in transparent mode, a pixel of a written frame sits at the declared transparent index 0 iff it is clear |
| `GifBuilder.OversizeRejected` | services/gif_builder.py:120-126 | an output over the limit fails with its size in the message |
| `GifBuilder.Encode` | services/gif_builder.py:37-133 | after validation: no survivors gives "No valid frames to create GIF"; with survivors, success with the saved size and the stream of the prepared frames iff `save` succeeds within 20 MiB, and "GIF creation failed: " + the error when `save` raises |
| `GifBuilder.BuildReadsSettingsAndFrames` | services/gif_builder.py:15-133 | a build depends only on a project's settings and frames |
| `GifBuilder.Prefix` | services/gif_builder.py:154 | Python's `frames[:m]`, negative m included |
| `GifBuilder.PreviewProject` | services/gif_builder.py:153-168 | the preview keeps name and settings and holds a prefix of at most max_frames frames |
| `GifBuilder.CreatePreviewGif` | services/gif_builder.py:135-185 | an empty project fails first; success is the preview build's; the message names the truncation iff the build succeeded and the project is longer than max_frames |
| `GifBuilder.PreviewOfShortProject` | services/gif_builder.py:149-181 | with max_frames at least the length, the preview reports exactly what the full build reports |
| `GifBuilder.PreviewTruncates` | services/gif_builder.py:153-179 | a successful truncating preview holds exactly max_frames frames and says "Preview created with {max} of {N} frames" |
| `PurePaths.Parse` | services/session_manager.py:84 | a parsed path is absolute iff the text starts with '/', and has only proper components |
| `PurePaths.ParseStr` | services/session_manager.py:87 | parsing the text of a well-formed path gives the path back |
| `PurePaths.NormalizeAppendPlain` | services/session_manager.py:83-84 | resolving after a ".."-free tail keeps the tail unchanged |

## Left out

- Flask routes, rate limiting, security headers, the scheduler and `app.py`: these are request plumbing.
- JSON text (`to_json`, `from_json`, `save`, `load`): only the dictionary level is modelled.
- Python's dynamic typing: the settings are a typed record. The `int()`, `bool()` and `str()` coercions of `update_settings` are the identity on these types. A dictionary value of the wrong type is not modelled.
- Object identity and mutation: operations return new values. `to_dict` sharing the settings dictionary with the project is not modelled.
- Projects.UpdateFrame: frames are values, not shared objects. After `reorder_frames` lists an id twice, the source holds one `Frame` object in two slots, and `update_frame` changes both. The model changes only the first matching slot, so its "nothing else changes" clause holds only for timelines of distinct frame objects.
- Clocks, uuid and `secrets` tokens: these are parameters. `create_session_id` and `initialize_session_storage` are filesystem effects and are not modelled.
- Pillow: decoding and `verify`, LANCZOS, `thumbnail`'s rounding, the float aspect ratio of `cover`, ADAPTIVE quantisation, alpha-mask compositing of partial alpha, and GIF encoding are uninterpreted. The float storage percentage of `get_remaining_quota` is left out.
- Quota.GetRemainingQuota: has no percentage field, because that value is a float.
- Quota.CanUpload: the source asks for statistics up to three times. The model takes one snapshot, so statistics that change between the calls are not modelled.
- Filesystem effects: stat, unlink, rmtree, mkdir and symbolic links in `resolve()` are not modelled, and the walk of `get_session_stats` is replaced by its result. `resolve()` is modelled lexically on absolute paths; the data directory is absolute because the source builds it from the working directory.
- Sessions.CleanupOldSessions: the data directory's entries are a map, so iteration order and a failure of `iterdir` or `stat` part-way through are not modelled.
- Sessions.DeleteSession: the session directory is looked up among the data directory's children by name. An id containing "/" or "..", which names a directory elsewhere, is not modelled. Neither is the empty id, which names the data directory itself.
- GifBuilder.ProcessFrame, GifBuilder.BuildGif: frame paths are checked with the corrected `Sessions.SafePathContained` instead of the written `safe_path` (see Findings). Frames are converted with the corrected `GifBuilder.ToPalette` instead of the written palette step (see Findings). Quantisation and writing failing other than through `save` are not modelled.
- ImageProcessor.HexToRgb: the table of non-ASCII decimal digits follows Unicode 15. A Python built on another Unicode version may accept a different set of digits.
- Floating-point time: times are exact reals.
- Cross-fade transitions: the application implements none.

## Findings

| source | as written | input that shows it | evidently intended | confidence | as-written member | corrected member |
|---|---|---|---|---|---|---|
| services/session_manager.py:87-88 | containment is tested with `str(target).startswith(str(base))`, so a sibling whose name extends the session's name passes | data dir /data, session "s1", part "../s1x" resolves to /data/s1x, which starts with "/data/s1" and is accepted | only the base directory and paths below it are accepted (a component-wise prefix test, such as `is_relative_to`) | not executed | `Sessions.SafePathAcceptsSibling` | `Sessions.SafePathContained` |
| services/gif_builder.py:86-91 | the comment promises a palette that reserves index 0 for transparency, but `convert('P', palette=ADAPTIVE, colors=255)` numbers its colours from 0; the mask paste then writes 0 at clear pixels, and `transparency=0` (line 115) makes every opaque pixel that was given index 0 transparent too | a transparent-mode frame with an opaque pixel whose colour the conversion places at palette index 0 | index 0 is used only by the clear pixels; the opaque pixels' indices move up by one | medium; not executed | `GifBuilder.OpaquePixelAtTransparentIndex` | `GifBuilder.ToPalette` |
