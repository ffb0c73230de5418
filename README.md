# Face attendance: identity store and matching

The service keeps registered faces in a flat directory. Each registered user
has an embedding file `<key>.npy` and a face crop `images/<key>.jpg`. The key
is `NIM_Name`, built from the request fields as the stripped NIM, an
underscore and the stripped name. The model covers four parts:

- **Registration** (`register_user`): the embedding files are scanned in the
  order `os.listdir` gives. The first `.npy` file whose text before the first
  `_` equals the new NIM is deleted together with its image, and the message
  becomes "Data Wajah Diperbarui". When no file matches, the message is
  "Berhasil Didaftarkan". The new embedding and crop are written in every case.
- **Recognition** (`recognize`): the scan is an argmax that starts from the
  sentinel `-1.0` and only takes over on a strictly higher score, so the
  first maximum in listing order wins. The reported key is the file name
  without `.npy`. The name is reported ("Matched") only when the score
  reaches the threshold, which defaults to 0.65; otherwise the answer is
  "Unknown". The score is reported either way.
- **The HTTP endpoints**: the identity key; the data-URL split of camera
  captures; the NIM lookup of `/check_user`, which reads a file name back
  into a NIM and an old name; and the success decision of `/attendance`.
- **Python string operations.** `strip`, `split`, `endswith` and `replace`
  are written out in `PyStr` with the facts the rest of the model needs.

The Dafny modules:

- `PyStr` holds those string operations.
- `Matcher` is the scan and the threshold decision over abstract scored
  entries.
- `IdentityStore` has two views of the directory:
  - `Dir` is the directory as a value. `RegisterUser` and `RecognizeUser`
    specify the two operations over it.
  - `FaceStore` is the directory as a class that is changed in place.
    `Register` and `Recognize` are its loops.

  Each loop is proved equal to the specification function, and the
  properties are proved as lemmas about those functions.
- `App` holds the endpoints, with `CheckUserExists` as a loop proved against
  `CheckUser`.
- `Scenarios` holds lemmas that span several requests.

Face detection, the embedding network and the cosine similarity are inputs.

- An image arrives as an `Analysis`:
  - `DecodeError` is `image_bytes_to_cv2` raising inside the `try`. Either
    `np.frombuffer` or `cv2.imdecode` can raise. OpenCV's `imdecode` raises on
    empty bytes, which an empty `photo` upload or the data URL
    `"data:image/png;base64,"` produces;
  - `NotAnImage` is `cv2.imdecode` returning nothing for non-empty bytes that
    do not decode, which makes face detection raise;
  - `NoFace` means no face was found;
  - `Face` carries the embedding.
- The score is a caller-supplied `similarity` function.
- Whether each `os.remove` succeeds is a `Removal` input.

An exception that escapes a view is `Raised`. For Flask this is an internal
server error.

Empty bytes make `image_bytes_to_cv2` raise inside the `try`, so they get
the error answer: "Error gambar: ..." from `register_user` and "Gambar rusak"
from `recognize`. Non-empty bytes that do not decode are handled differently.
`cv2.imdecode` returns `None` for them without raising, and face detection
then raises on it outside the `try`. So for such bytes the code returns
neither error answer. The model follows the code: such an image is
`NotAnImage`, which leads to `Raised`.

## Model

| member | source | states |
|---|---|---|
| PyStr.IsSpace | backend/app.py:56 | Python's `isspace`: the ASCII whitespace (space, `\t` to `\r`), U+001C to U+001F, U+0085, U+00A0, U+1680, U+2000 to U+200A, U+2028, U+2029, U+202F, U+205F and U+3000; `StripSpec` states what `strip` removes in these terms |
| PyStr.LStrip | backend/app.py:56 | `s.lstrip()`: the result is a suffix of the input, everything dropped before it is whitespace, and it is empty or starts with a non-space character |
| PyStr.RStrip | backend/app.py:56 | `s.rstrip()`: the result is a prefix of the input, everything dropped after it is whitespace, and it is empty or ends with a non-space character |
| PyStr.Strip | backend/app.py:56 | `s.strip()`, as `rstrip` after `lstrip`; `StripSpec`, `StripIdempotent` and `StripClean` state what it leaves |
| PyStr.StripSpec | backend/app.py:56 | the result is empty exactly when the input is all whitespace; otherwise it starts and ends with a non-space character; it sits in the input with only whitespace before and after it |
| PyStr.StripIdempotent | backend/app.py:102 | stripping a stripped string changes nothing |
| PyStr.StripClean | backend/app.py:56 | a string with no whitespace at either end strips to itself |
| PyStr.Split | backend/utils.py:58 | `s.split(sep)` for a one-character separator: the text before the first separator, then the split of the rest; its contract promises at least one part, and `IndexOfFirst`, `SplitParts`, `SplitFirst`, `SplitSecond`, `SplitAppend` and the round trips `JoinSplit`/`SplitJoin` state what the parts are |
| PyStr.Join | backend/utils.py:58 | `sep.join(parts)`, the inverse of that split: `JoinSplit` and `SplitJoin` prove the two round trips, and `JoinAppend` the join of two lists |
| PyStr.IndexOf | backend/utils.py:58 | the index found is within the string and, when below its length, holds the character |
| PyStr.IndexOfFirst | backend/utils.py:58 | no occurrence of the character comes before the index found |
| PyStr.IndexOfAppend | backend/utils.py:63 | searching a concatenation finds the first string's occurrence when it has one, and otherwise the second string's, shifted by the first string's length |
| PyStr.SplitParts | backend/utils.py:58 | no part of a split holds the separator; a string without the separator is its own single part |
| PyStr.SplitFirst | backend/utils.py:58 | the first part (`split('_')[0]`) is the text before the first separator, or the whole string |
| PyStr.SplitSecond | backend/app.py:58 | a string holding the separator splits into at least two parts, so `[1]` exists |
| PyStr.JoinSplit | backend/utils.py:63 | joining the parts of a split with the separator gives back the string |
| PyStr.SplitJoin | backend/app.py:108 | splitting a join of separator-free parts gives back the parts |
| PyStr.SplitAppend | backend/app.py:56 | splitting `a + sep + b` gives the parts of `a` followed by the parts of `b` |
| PyStr.SplitAtSeparator | backend/app.py:56 | when `a` holds no separator, splitting `a + sep + b` gives `a` followed by the parts of `b` |
| PyStr.JoinAppend | backend/app.py:56 | joining two lists of parts puts exactly one separator between the two joins |
| PyStr.SplitHeadExtension | backend/utils.py:63 | text after the first separator does not change the first part |
| PyStr.EndsWith | backend/utils.py:62 | `s.endswith(suffix)`: the string is at least as long as the suffix and its last characters are the suffix; `KeyOf` and `SavedFile` use it |
| PyStr.Replace | backend/utils.py:67 | `s.replace(target, repl)`: every non-overlapping occurrence, scanning left to right, becomes `repl`, and an empty target inserts `repl` around every character; `ReplaceAbsent`, `ReplaceSuffix`, `OldImageName` and `NpyKeyImageName` state what it gives on the names the service builds |
| PyStr.ReplaceAbsent | backend/app.py:111 | replacing a target that does not occur changes nothing |
| PyStr.ReplaceSuffix | backend/utils.py:67 | a target whose first character does not recur in it, appended to a string free of it, is the only occurrence, and replace rewrites exactly that suffix |
| Matcher.Step | backend/utils.py:97-99 | one loop iteration: only a scored entry with a strictly higher score takes over name and score; `ScanFindsFirstMaximum` shows this makes the first maximum win |
| Matcher.Scan | backend/utils.py:91-99 | the loop state after the whole listing, from no name and -1.0; `ScanBounds` states that it is the maximum score (or -1.0) with the key of an entry holding it |
| Matcher.Decide | backend/utils.py:101-103 | name, score and "Matched" at or above the threshold, otherwise no name, the score and "Unknown"; `MatchCorrect` states both directions |
| Matcher.Match | backend/utils.py:91-103 | the scan followed by the threshold decision; `MatchCorrect`, `MatchNameIsFirstMaximum` and `MatchEmpty` state what it reports |
| Matcher.ScanBounds | backend/utils.py:91-99 | the scanned score is at least -1.0 and bounds every scored entry; without a name it is -1.0; a found name is the key of an entry with exactly that score, above -1.0 |
| Matcher.ScanFindsFirstMaximum | backend/utils.py:97-99 | the first entry reaching the maximum, if it beats -1.0, is the one the scan ends on (strict `>` tie-break) |
| Matcher.FirstMaximumExists | backend/utils.py:97-99 | among the entries reaching a maximum there is a first one |
| Matcher.MatchCorrect | backend/utils.py:91-103 | a score is always reported; it is the maximum over scored entries or -1.0; "Matched" exactly when the score is at least the threshold and "Unknown" exactly when below; "Unknown" carries no name; a name is reported exactly when the score reaches the threshold and some entry beats -1.0; it is then the key of the first maximum |
| Matcher.MatchNameIsFirstMaximum | backend/utils.py:97-102 | a reported name and score come from the first entry in scan order reaching the maximum |
| Matcher.MatchEmpty | backend/utils.py:91-103 | an empty store gives no name, score -1.0 and "Unknown" for any threshold above -1.0 |
| IdentityStore.IsNpy | backend/utils.py:62 | `fname.endswith(".npy")`, the embedding-file test of `register_user`, of `recognize` (backend/utils.py:94) and of `/check_user` (backend/app.py:107); `SavedFile` states that every written key gives such a file |
| IdentityStore.Nim | backend/utils.py:58 | `s.split('_')[0]`, the NIM of a key and of a file name (backend/utils.py:63, backend/app.py:108-109); `SplitFirst` states that it is the text before the first underscore, or the whole string, and `NimOfFile` that a key and its `.npy` file share it |
| IdentityStore.HasNim | backend/utils.py:62-64 | the file is an embedding file whose NIM is the given one, the combined test of `register_user` and of `/check_user` (backend/app.py:107-110); `FirstWithNim` and `CheckUserCorrect` state their answers through it |
| IdentityStore.KeyOf | backend/utils.py:99 | the key of an embedding file, with ".npy" appended, is the file name |
| IdentityStore.FirstWithNim | backend/utils.py:61-64 | the index found is of an embedding file with the NIM and no earlier file has it; none is found exactly when no file has it |
| IdentityStore.Without | backend/utils.py:66 | after deleting a file the listing holds exactly the other names |
| IdentityStore.WithoutDistinct | backend/utils.py:66 | deleting keeps the listed names distinct |
| IdentityStore.WithoutAt | backend/utils.py:66 | deleting a listed file removes exactly that entry and keeps the order of the rest |
| IdentityStore.Entries | backend/utils.py:93-96 | the scan sees one entry per listed name |
| IdentityStore.Removed | backend/utils.py:65-71 | the directory after the `try` block: when the `.npy` removal fails nothing changes; otherwise the file and its vector go, and the image named by `replace(".npy", ".jpg")` goes when it exists and its removal succeeds; `RemovedSavedValid`, `RemovedFirstOfNim` and `RegisterDeletesOldRecord` state its effect |
| IdentityStore.Saved | backend/utils.py:75-76 | the directory after `np.save` and `face_pil.save`: the identity's `.npy` file holds the embedding and its `.jpg` exists; `SavedFile`, `RemovedSavedValid` and `SavedSole` state its effect |
| IdentityStore.RegisterUser | backend/utils.py:42-78 | `register_user` as a function of the directory, the image analysis and the outcome of each `os.remove`; `RegisterOutcome`, `RegisterListing`, `RegisterTouchesOnlyFirstMatch` and `RegisterKeepsNimsUnique` state what it does, and `FaceStore.Register` is proved equal to it |
| IdentityStore.RecognizeUser | backend/utils.py:80-103 | `recognize` as a function of the directory: the two early answers, the raise on an undecodable image, otherwise `Match` over the listing's entries; `RecognizedFileIsFirstMaximum` and `RecognizeOutcomesDistinct` state what it reports, and `FaceStore.Recognize` is proved equal to it |
| IdentityStore.NimOfFile | backend/utils.py:58-63 | a key holding an underscore has the same NIM as its `.npy` file name |
| IdentityStore.SavedFile | backend/utils.py:75 | the written file is an embedding file whose key is the identity |
| IdentityStore.RemovedSavedValid | backend/utils.py:65-76 | deleting and saving keep each name listed once and a vector for exactly the `.npy` files |
| IdentityStore.RegisterOutcome | backend/utils.py:42-78 | a decode error, an undecodable image and a missing face leave the store unchanged, with their answers; with a face the `.npy` holding the embedding and the `.jpg` of the identity exist afterwards and the call returns True; the message is "Data Wajah Diperbarui" exactly when some `.npy` file had the NIM, and "Berhasil Didaftarkan" exactly when none had |
| IdentityStore.RegisterListing | backend/utils.py:61-76 | the new listing is the old one with only the first matching file removed (when its deletion succeeds), order kept, and the new file appended unless already listed |
| IdentityStore.RegisterTouchesOnlyFirstMatch | backend/utils.py:61-76 | only the first file with the NIM can vanish, and only when its deletion succeeds; every other file keeps its vector; only that file's computed image can vanish; no image other than the new one appears; no file other than the new one appears |
| IdentityStore.FailedDeletionIsSwallowed | backend/utils.py:65-76 | when the `.npy` deletion fails the message is still "Data Wajah Diperbarui", every old file and image stays, and the new files are written |
| IdentityStore.OldImageName | backend/utils.py:67 | for a key without ".npy" the image deleted is the key's own `.jpg` |
| IdentityStore.RegisterDeletesOldRecord | backend/utils.py:64-69 | with both deletions succeeding, the superseded embedding file, its vector and its image are gone |
| IdentityStore.RegisterKeepsNimsUnique | backend/utils.py:42-78 | with successful deletions, at most one embedding file per NIM is kept, and the new file is the only one of its NIM |
| IdentityStore.NoFileWithNim | backend/utils.py:61-64 | when the search finds no file, no listed file has the NIM |
| IdentityStore.RemovedFirstOfNim | backend/utils.py:64-66 | deleting the found file of a NIM from a listing with unique NIMs leaves no file of that NIM and keeps the rest unique |
| IdentityStore.SavedSole | backend/utils.py:75 | saving into a listing with unique NIMs and no file of the key's NIM keeps NIMs unique and makes the saved file the only one of its NIM |
| IdentityStore.RecognizedFileIsFirstMaximum | backend/utils.py:90-102 | a reported name is the key of a listed `.npy` file whose score is the reported score, at least the threshold, no lower than any other file's and strictly above every earlier file's |
| IdentityStore.RecognizeOutcomesDistinct | backend/utils.py:80-103 | a broken image gives no name or score and "Gambar rusak"; no face gives no name or score and "Wajah tidak terdeteksi"; an undecodable image raises; a face always gives a score with "Matched" or "Unknown" |
| IdentityStore.FaceStore.Open | backend/utils.py:13-16 | the store opens on the directory as found |
| IdentityStore.FaceStore.Delete | backend/utils.py:65-71 | deletes the `.npy` file, then its computed image if it exists, stopping at the first failure |
| IdentityStore.FaceStore.Write | backend/utils.py:75-76 | writes the embedding file and the image of the identity |
| IdentityStore.FaceStore.Register | backend/utils.py:42-78 | the supersede loop with its `break` leaves the directory and returns exactly what `RegisterUser` specifies |
| IdentityStore.FaceStore.Recognize | backend/utils.py:80-103 | the scanning loop returns exactly what `RecognizeUser` specifies and changes nothing |
| App.IdentityKey | backend/app.py:56 | the key splits into the parts of the stripped NIM followed by those of the stripped name, so its NIM is the stripped NIM's first part |
| App.IdentityKeyParts | backend/app.py:70 | with no underscore in either field, the key reads back as exactly the stripped NIM and the stripped name |
| App.Payload | backend/app.py:58 | the payload never holds a comma, and an image string without a comma is passed on unchanged; `PayloadOfDataUrl` gives the payload of a data URL |
| App.PayloadOfDataUrl | backend/app.py:58 | the payload of `header,data` is the text after the first comma (up to any next comma); a string without a comma is its own payload |
| App.OldName | backend/app.py:108-111 | the second `_` part with every ".npy" removed, or "User" when there is none; `OldNameOfKey` and `OldNameTruncates` state what it reads back from the names the service writes |
| App.CheckUser | backend/app.py:96-117 | what `/check_user` answers: 400 without a JSON body or `nim`, otherwise the first `.npy` file with the stripped NIM; `CheckUserCorrect` states both directions and `CheckUserExists` is proved equal to it |
| App.OldNameOfKey | backend/app.py:111 | the old name read back from `nim_name.npy` is `name` |
| App.OldNameTruncates | backend/app.py:108-111 | a name holding an underscore is read back only up to its first underscore |
| App.CheckUserCorrect | backend/app.py:102-117 | the lookup reports a registration exactly when some `.npy` file has the stripped NIM, and then the old name of the first such file; otherwise no old name |
| App.CheckUserFound | backend/app.py:106-115 | when the loop stops at a file with the NIM and no earlier file has it, the answer is registered with that file's old name |
| App.CheckUserMissing | backend/app.py:117 | when no file has the NIM, the answer is 200 and not registered |
| App.CheckUserExists | backend/app.py:96-117 | the search loop with its early return answers exactly what `CheckUser` specifies, with 400 when the body or `nim` is missing |
| App.Respond | backend/app.py:63-64 | the reply `(ok, msg)` of `register_user` becomes status 200 with those fields, and a raise passes through; `/register` answers the same way (backend/app.py:71-72) |
| App.ApiRegisterCamera | backend/app.py:50-64 | a missing field gives 400 "Data tidak lengkap" and an undecodable base64 payload gives 400 "Base64 Error", both leaving the store unchanged; otherwise the store and the reply are those of `register_user` on the stripped key and the payload after the data-URL comma |
| App.ApiRegister | backend/app.py:66-72 | a missing field or photo gives 400 "Data kurang" with the store unchanged; otherwise the store and the reply are those of `register_user` on the stripped key |
| App.ChosenUpload | backend/app.py:76-77 | the `photo` upload when it is truthy, else the `image` upload; it takes a Werkzeug upload to be truthy exactly when its file name is not empty, and `ApiAttendance` then answers 400 for a missing or unnamed upload |
| App.ApiAttendance | backend/app.py:74-86 | no usable upload gives 400 "No Image"; otherwise success holds exactly when recognition names someone (a non-empty name), the name is reported only then, and score and message are passed on either way |
| Scenarios.KeyHasUnderscore | backend/app.py:56 | a built key always holds an underscore |
| Scenarios.RegisterThenCheckUser | backend/app.py:96-117 | after registering NIM and name, the lookup with the same stripped NIM reports the user with the stripped name |
| Scenarios.UnderscoreNimNeverFound | backend/app.py:102-117 | a NIM holding an underscore after stripping is never found, whatever is listed and so even right after it was registered, because a file's NIM ends at its first underscore |
| Scenarios.LookupOnlyFile | backend/app.py:106-115 | when a file is the only one of its NIM, the lookup reports its old name |
| Scenarios.ReRegisterSupersedes | backend/utils.py:42-78 | re-registering a NIM under a new name reports an update, writes the new embedding file, vector and image, removes the old embedding file and image, and leaves the new file the only one of that NIM |
| Scenarios.KeysOfOneNim | backend/app.py:56 | two names that differ after stripping, under one underscore-free NIM give two different keys, both holding an underscore and both with that NIM |
| Scenarios.RegisterFace | backend/utils.py:42-78 | registering a face under a key with an underscore keeps the directory valid and its NIMs unique, and lists the key's embedding file |
| Scenarios.SupersedeSoleFile | backend/utils.py:61-76 | when the NIM's only embedding file belongs to another key without ".npy", registering replaces that file and its image by the new key's, answers "Data Wajah Diperbarui", and leaves the new file the only one of the NIM |
| Scenarios.RecognizeAfterRegister | backend/utils.py:80-103 | a just-registered face that reaches the threshold and beats every other stored vector is recognised under its key with its score |
| Scenarios.RecognizeSoleBest | backend/utils.py:91-102 | a listed embedding file whose score reaches the threshold and beats every other file's is reported, with its key, its score and "Matched" |
| Scenarios.EntriesSoleBest | backend/utils.py:93-99 | in a listing of distinct names, a file scoring above every other file is the scan's first maximum, scored under its key |
| Scenarios.UnderscoreNimSupersedes | backend/utils.py:58-64 | a NIM holding an underscore supersedes the first file whose NIM is its first part |
| Scenarios.OrphanedImage | backend/utils.py:67-69 | when the computed image name differs from the key's own image, the superseded embedding file goes but its image stays |
| Scenarios.NpyKeyImageName | backend/utils.py:67 | for the key ".npy" the computed image name is ".jpg.jpg", not the key's own image |
| Scenarios.EmptyKeyMatches | backend/utils.py:99-102 | a directory holding only the file ".npy", whose score reaches the default threshold, is reported as the empty name with "Matched" |

## Left out

- Face detection, the embedding network and pixel normalisation (backend/utils.py:8-11, 23-40): these are foreign model calls. They enter as the `Analysis` of an image.
- The cosine similarity (backend/utils.py:96): this is float numerics. It is a caller-supplied `similarity`. Scores are mathematical reals, so NaN and rounding are not modelled.
- Image decoding and base64 decoding (backend/utils.py:18-21, backend/app.py:59): these are library calls. Base64 decoding is a function returning `None` on failure.
- `np.save`, `np.load` and the JPEG format: these are file formats. An embedding file holds its vector and an image file is only a name.
- Where a newly created file lands in `os.listdir` order: the filesystem does not define it. The model puts it last. An overwritten file keeps its place.
- IdentityStore.FaceStore.Write: a key holding `/` names a path in another directory, where `np.save` may write elsewhere or raise. The model treats every key as a plain file name.
- Failure of `np.save` or `face_pil.save`: disk errors are not modelled. Writing always succeeds.
- Flask routing, static pages, CORS, how `jsonify` encodes data, and the attendance CSV log with its timestamps (backend/app.py:9-48, 81-83, 88-94, 119-120): this is I/O plumbing.
- A JSON body that is not an object, JSON fields that are not strings, and `get_json` errors: a string body such as `"nim name image"` passes the `in` tests by substring match and then raises at `data['nim']` (backend/app.py:53-56, 99-102). `.strip()` or `.split()` on a field that is not a string would raise. The model takes the body to be an object whose fields are strings.
- The `os.path.exists("faces")` test of `/check_user` (backend/app.py:105): it always holds, because the store creates the directory when it loads.
- App.ChosenUpload: Werkzeug is not part of this model. The model takes an upload to be truthy exactly when its file name is not empty, which is how Werkzeug's `FileStorage` defines truth.
- Concurrent requests: the source has no locking, and concurrency is not modelled.
