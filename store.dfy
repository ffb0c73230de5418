/**
 * The face directory behind `register_user` and `recognize`: a flat
 * directory of `<key>.npy` embedding files beside an `images` directory of
 * `<key>.jpg` face crops, where a key is `NIM_Name`.
 *
 * `Dir` is the directory as a value and the functions over it say what each
 * operation does to it; `FaceStore` is the directory as the service changes
 * it in place, and its methods are proved against those functions.
 */
module IdentityStore {
  import opened Outcomes
  import opened PyStr
  import Matcher

  /** The vector stored in a `.npy` file. */
  type Embedding = seq<real>

  /** What the image pipeline makes of the submitted bytes:
      `image_bytes_to_cv2` raising inside the `try` (`DecodeError`; it is
      `np.frombuffer` or `cv2.imdecode` that raises, as OpenCV does on empty
      bytes), `cv2.imdecode` returning nothing for non-empty bytes that do not
      decode, so that face detection raises (`NotAnImage`), no face found
      (`NoFace`), or the unit embedding of the detected face (`Face`). */
  datatype Analysis = DecodeError(reason: string) | NotAnImage | NoFace | Face(embedding: Embedding)

  /** Whether `os.remove` succeeds on the superseded `.npy` file and on its image. */
  datatype Removal = Removal(npyRemoved: bool, jpgRemoved: bool)

  /** The pair `(ok, message)` that `register_user` returns. */
  datatype Reply = Reply(ok: bool, message: string)

  /** The face directory: its listing in `os.listdir` order, the vector held
      by each `.npy` file, and the file names in `images`. */
  datatype Dir = Dir(listing: seq<string>, vectors: map<string, Embedding>, images: set<string>)

  const Npy := ".npy"
  const Jpg := ".jpg"
  const RegisteredMessage := "Berhasil Didaftarkan"
  const UpdatedMessage := "Data Wajah Diperbarui"
  const NoFaceOnRegister := "Wajah tidak terdeteksi!"
  const ImageErrorPrefix := "Error gambar: "
  const BrokenImage := "Gambar rusak"
  const NoFaceOnRecognize := "Wajah tidak terdeteksi"

  /** `fname.endswith(".npy")` */
  predicate IsNpy(f: string) {
    EndsWith(f, Npy)
  }

  /** `s.split('_')[0]`: the NIM part of a key or file name. */
  function Nim(s: string): string {
    Split(s, '_')[0]
  }

  /** The file is an embedding file of the given NIM. */
  predicate HasNim(f: string, nim: string) {
    IsNpy(f) && Nim(f) == nim
  }

  /** `fname[:-4]`: the key of an embedding file. */
  function KeyOf(f: string): (key: string)
    requires IsNpy(f)
    ensures key + Npy == f
  {
    f[..|f| - 4]
  }

  predicate Distinct(s: seq<string>) {
    forall i, j :: 0 <= i < j < |s| ==> s[i] != s[j]
  }

  /** A directory lists each name once and holds a vector for exactly its `.npy` files. */
  ghost predicate DirValid(d: Dir) {
    && Distinct(d.listing)
    && (forall f :: f in d.vectors <==> f in d.listing && IsNpy(f))
  }

  /** At most one embedding file per NIM: the identity invariant of the service. */
  ghost predicate UniqueNims(listing: seq<string>) {
    forall f, g :: f in listing && g in listing && IsNpy(f) && IsNpy(g) && Nim(f) == Nim(g) ==> f == g
  }

  /** The index of the first embedding file of `nim` in listing order. */
  function FirstWithNim(listing: seq<string>, nim: string): (r: Option<nat>)
    ensures r.Some? ==>
              && r.value < |listing| && HasNim(listing[r.value], nim)
              && forall j :: 0 <= j < r.value ==> !HasNim(listing[j], nim)
    ensures r.None? <==> forall j :: 0 <= j < |listing| ==> !HasNim(listing[j], nim)
    decreases |listing|
  {
    if listing == [] then None
    else if HasNim(listing[0], nim) then Some(0)
    else match FirstWithNim(listing[1..], nim)
      case None => None
      case Some(k) => Some(k + 1)
  }

  /** The listing after the file `x` is deleted. */
  function Without(s: seq<string>, x: string): (r: seq<string>)
    ensures forall y :: y in r <==> y in s && y != x
    decreases |s|
  {
    if s == [] then []
    else (if s[0] == x then [] else [s[0]]) + Without(s[1..], x)
  }

  /** Deleting keeps the names distinct. */
  lemma {:induction false} WithoutDistinct(s: seq<string>, x: string)
    requires Distinct(s)
    ensures Distinct(Without(s, x))
    decreases |s|
  {
    if s != [] {
      assert Distinct(s[1..]) by {
        forall i, j | 0 <= i < j < |s[1..]| ensures s[1..][i] != s[1..][j] {
          assert s[1..][i] == s[i + 1] && s[1..][j] == s[j + 1];
        }
      }
      assert s[0] !in s[1..] by {
        forall j | 0 <= j < |s[1..]| ensures s[1..][j] != s[0] {
          assert s[1..][j] == s[j + 1];
        }
      }
      WithoutDistinct(s[1..], x);
    }
  }

  /** Deleting a listed file removes exactly that entry and keeps the order of the rest. */
  lemma {:induction false} WithoutAt(s: seq<string>, i: int)
    requires Distinct(s) && 0 <= i < |s|
    ensures Without(s, s[i]) == s[..i] + s[i + 1..]
    decreases |s|
  {
    if i == 0 {
      WithoutAbsent(s[1..], s[0]);
    } else {
      assert s[1..][i - 1] == s[i];
      WithoutAt(s[1..], i - 1);
      assert s[1..][..i - 1] == s[1..i];
      assert s[1..][i..] == s[i + 1..];
      assert s[..i] == [s[0]] + s[1..i];
    }
  }

  lemma WithoutAbsent(s: seq<string>, x: string)
    requires x !in s
    ensures Without(s, x) == s
  {
  }

  /** The face directory after the superseded file `fname` is deleted. The
      `.npy` file goes first; if that raises, the bare `except` swallows the
      error and nothing is deleted. The image deleted is `fname` with every
      ".npy" replaced by ".jpg", and only if it exists. */
  function Removed(d: Dir, fname: string, removal: Removal): Dir {
    if !removal.npyRemoved then d
    else
      var oldImage := Replace(fname, Npy, Jpg);
      Dir(Without(d.listing, fname), d.vectors - {fname},
          if oldImage in d.images && removal.jpgRemoved then d.images - {oldImage} else d.images)
  }

  /** The face directory after `np.save` and `face_pil.save` for `identity`:
      both files exist, an existing `.npy` file keeps its place in the listing
      and a new one comes last. */
  function Saved(d: Dir, identity: string, emb: Embedding): Dir {
    var f := identity + Npy;
    Dir(if f in d.listing then d.listing else d.listing + [f],
        d.vectors[f := emb],
        d.images + {identity + Jpg})
  }

  /** `register_user(full_identity, img_bytes)` as a function of the directory:
      the new directory and what the call returns. */
  function RegisterUser(d: Dir, identity: string, image: Analysis, removal: Removal): (Dir, Call<Reply>) {
    match image
    case DecodeError(e) => (d, Returned(Reply(false, ImageErrorPrefix + e)))
    case NotAnImage => (d, Raised)
    case NoFace => (d, Returned(Reply(false, NoFaceOnRegister)))
    case Face(emb) =>
      match FirstWithNim(d.listing, Nim(identity))
      case None => (Saved(d, identity, emb), Returned(Reply(true, RegisteredMessage)))
      case Some(k) => (Saved(Removed(d, d.listing[k], removal), identity, emb), Returned(Reply(true, UpdatedMessage)))
  }

  /** The directory as the scan of `recognize` sees it, one entry per listed name. */
  function Entries(listing: seq<string>, vectors: map<string, Embedding>, query: Embedding,
                   similarity: (Embedding, Embedding) -> real): (es: seq<Matcher.Entry>)
    requires forall f :: f in listing && IsNpy(f) ==> f in vectors
    ensures |es| == |listing|
  {
    seq(|listing|, i requires 0 <= i < |listing| =>
      if IsNpy(listing[i]) then Matcher.Scored(KeyOf(listing[i]), similarity(query, vectors[listing[i]]))
      else Matcher.Skipped)
  }

  /** `recognize(img_bytes, threshold)` as a function of the directory. */
  function RecognizeUser(d: Dir, image: Analysis, threshold: real,
                         similarity: (Embedding, Embedding) -> real): Call<Matcher.Recognition>
    requires DirValid(d)
  {
    match image
    case DecodeError(_) => Returned(Matcher.Recognition(None, None, BrokenImage))
    case NotAnImage => Raised
    case NoFace => Returned(Matcher.Recognition(None, None, NoFaceOnRecognize))
    case Face(q) => Returned(Matcher.Match(Entries(d.listing, d.vectors, q, similarity), threshold))
  }

  /** A key holding an underscore has the NIM of its `.npy` file name. */
  lemma NimOfFile(identity: string)
    requires '_' in identity
    ensures Nim(identity + Npy) == Nim(identity)
  {
    SplitHeadExtension(identity, Npy, '_');
  }

  lemma SavedFile(identity: string)
    ensures IsNpy(identity + Npy) && KeyOf(identity + Npy) == identity
  {
    assert (identity + Npy)[|identity|..] == Npy;
    assert (identity + Npy)[..|identity|] == identity;
  }

  /** Deleting and saving keep a directory valid. */
  lemma RemovedSavedValid(d: Dir, fname: string, removal: Removal, identity: string, emb: Embedding)
    requires DirValid(d)
    ensures DirValid(Removed(d, fname, removal))
    ensures DirValid(Saved(d, identity, emb))
  {
    SavedFile(identity);
    WithoutDistinct(d.listing, fname);
  }

  /** The outcome of `register_user`: every failure before the embedding leaves
      the directory alone; otherwise both files of `identity` are written, the
      call succeeds, and the message says "updated" exactly when some embedding
      file already had the NIM of `identity`. */
  lemma RegisterOutcome(d: Dir, identity: string, image: Analysis, removal: Removal)
    requires DirValid(d)
    ensures var (d', r) := RegisterUser(d, identity, image, removal);
      && DirValid(d')
      && (image.DecodeError? ==> d' == d && r == Returned(Reply(false, ImageErrorPrefix + image.reason)))
      && (image.NotAnImage? ==> d' == d && r == Raised)
      && (image.NoFace? ==> d' == d && r == Returned(Reply(false, NoFaceOnRegister)))
      && (image.Face? ==>
            && identity + Npy in d'.listing
            && identity + Npy in d'.vectors && d'.vectors[identity + Npy] == image.embedding
            && identity + Jpg in d'.images
            && r.Returned? && r.value.ok
            && (r.value.message == UpdatedMessage <==>
                  exists j :: 0 <= j < |d.listing| && IsNpy(d.listing[j]) && Nim(d.listing[j]) == Nim(identity))
            && (r.value.message == RegisteredMessage <==>
                  forall j :: 0 <= j < |d.listing| && IsNpy(d.listing[j]) ==> Nim(d.listing[j]) != Nim(identity)))
  {
    if image.Face? {
      var emb := image.embedding;
      var f := identity + Npy;
      assert RegisteredMessage != UpdatedMessage;
      match FirstWithNim(d.listing, Nim(identity))
      case None =>
        RemovedSavedValid(d, "", removal, identity, emb);
        assert f in Saved(d, identity, emb).listing;
      case Some(k) =>
        var mid := Removed(d, d.listing[k], removal);
        RemovedSavedValid(d, d.listing[k], removal, identity, emb);
        RemovedSavedValid(mid, "", removal, identity, emb);
        assert f in Saved(mid, identity, emb).listing;
    }
  }

  /** The listing after registration: when the first embedding file with the
      NIM of `identity` is deleted, exactly that entry leaves and the rest keep
      their order; the new file is last unless it was already listed. */
  lemma RegisterListing(d: Dir, identity: string, emb: Embedding, removal: Removal)
    requires DirValid(d)
    ensures var d' := RegisterUser(d, identity, Face(emb), removal).0;
      var first := FirstWithNim(d.listing, Nim(identity));
      var f := identity + Npy;
      var kept := if first.Some? && removal.npyRemoved
                  then d.listing[..first.value] + d.listing[first.value + 1..]
                  else d.listing;
      d'.listing == if f in kept then kept else kept + [f]
  {
    var first := FirstWithNim(d.listing, Nim(identity));
    if first.Some? && removal.npyRemoved {
      WithoutAt(d.listing, first.value);
    }
  }

  /** Only the first embedding file with the NIM of `identity` can disappear,
      and only when its deletion succeeds; every other file keeps its vector
      unless it is the file rewritten for `identity`. */
  lemma RegisterTouchesOnlyFirstMatch(d: Dir, identity: string, emb: Embedding, removal: Removal)
    requires DirValid(d)
    ensures var d' := RegisterUser(d, identity, Face(emb), removal).0;
      var first := FirstWithNim(d.listing, Nim(identity));
      && (forall g :: g in d.listing && g !in d'.listing ==>
            first.Some? && g == d.listing[first.value] && removal.npyRemoved)
      && (forall g :: g in d.vectors && g in d'.listing && g != identity + Npy ==>
            g in d'.vectors && d'.vectors[g] == d.vectors[g])
      && (forall g :: g in d.images && g !in d'.images ==>
            && first.Some? && removal.npyRemoved && removal.jpgRemoved
            && g == Replace(d.listing[first.value], Npy, Jpg))
      && d'.images <= d.images + {identity + Jpg}
      && (forall g :: g in d'.listing ==> g in d.listing || g == identity + Npy)
  {
  }

  /** A failed deletion is swallowed: the message still says "updated", the
      old file stays listed, and the new files are written all the same. */
  lemma FailedDeletionIsSwallowed(d: Dir, identity: string, emb: Embedding, jpgRemoved: bool)
    requires DirValid(d)
    requires exists j :: 0 <= j < |d.listing| && HasNim(d.listing[j], Nim(identity))
    ensures var (d', r) := RegisterUser(d, identity, Face(emb), Removal(false, jpgRemoved));
      && r == Returned(Reply(true, UpdatedMessage))
      && (forall f :: f in d.listing ==> f in d'.listing)
      && d.images <= d'.images
      && identity + Npy in d'.listing && d'.vectors[identity + Npy] == emb && identity + Jpg in d'.images
  {
    var first := FirstWithNim(d.listing, Nim(identity));
    assert first.Some?;
  }

  /** The image deleted for an ordinary key is that key's own image. */
  lemma OldImageName(key: string)
    requires !Contains(key, Npy)
    ensures Replace(key + Npy, Npy, Jpg) == key + Jpg
  {
    ReplaceSuffix(key, Npy, Jpg);
  }

  /** When the superseded file has an ordinary key and both deletions succeed,
      its embedding file and its image are gone (unless it is `identity`'s own). */
  lemma RegisterDeletesOldRecord(d: Dir, identity: string, emb: Embedding, oldKey: string)
    requires DirValid(d)
    requires FirstWithNim(d.listing, Nim(identity)).Some?
    requires d.listing[FirstWithNim(d.listing, Nim(identity)).value] == oldKey + Npy
    requires !Contains(oldKey, Npy) && oldKey != identity
    ensures var d' := RegisterUser(d, identity, Face(emb), Removal(true, true)).0;
      && oldKey + Npy !in d'.listing && oldKey + Npy !in d'.vectors
      && oldKey + Jpg !in d'.images
  {
    OldImageName(oldKey);
    assert oldKey + Npy != identity + Npy by {
      assert (oldKey + Npy)[..|oldKey|] == oldKey;
      assert (identity + Npy)[..|identity|] == identity;
    }
    assert oldKey + Jpg != identity + Jpg by {
      assert (oldKey + Jpg)[..|oldKey|] == oldKey;
      assert (identity + Jpg)[..|identity|] == identity;
    }
  }

  /** With successful deletions, registering keeps at most one embedding file
      per NIM, and afterwards the file of `identity` is the only one of its NIM. */
  lemma RegisterKeepsNimsUnique(d: Dir, identity: string, emb: Embedding, jpgRemoved: bool)
    requires DirValid(d) && UniqueNims(d.listing) && '_' in identity
    ensures var d' := RegisterUser(d, identity, Face(emb), Removal(true, jpgRemoved)).0;
      && UniqueNims(d'.listing)
      && forall f :: f in d'.listing && HasNim(f, Nim(identity)) ==> f == identity + Npy
  {
    var nim := Nim(identity);
    var removal := Removal(true, jpgRemoved);
    match FirstWithNim(d.listing, nim)
    case None =>
      assert RegisterUser(d, identity, Face(emb), removal).0 == Saved(d, identity, emb);
      NoFileWithNim(d.listing, nim);
      SavedSole(d, identity, emb);
    case Some(k) =>
      var mid := Removed(d, d.listing[k], removal);
      assert RegisterUser(d, identity, Face(emb), removal).0 == Saved(mid, identity, emb);
      RemovedFirstOfNim(d, nim, k, removal);
      SavedSole(mid, identity, emb);
  }

  /** When the search finds nothing, no listed file has the NIM. */
  lemma NoFileWithNim(listing: seq<string>, nim: string)
    requires FirstWithNim(listing, nim).None?
    ensures forall g :: g in listing ==> !HasNim(g, nim)
  {
    forall g | g in listing
      ensures !HasNim(g, nim)
    {
      var j :| 0 <= j < |listing| && listing[j] == g;
    }
  }

  /** Deleting the embedding file of a NIM from a listing with unique NIMs
      leaves no file of that NIM and keeps the rest unique. */
  lemma RemovedFirstOfNim(d: Dir, nim: string, k: int, removal: Removal)
    requires UniqueNims(d.listing) && 0 <= k < |d.listing| && HasNim(d.listing[k], nim)
    requires removal.npyRemoved
    ensures UniqueNims(Removed(d, d.listing[k], removal).listing)
    ensures forall g :: g in Removed(d, d.listing[k], removal).listing ==> !HasNim(g, nim)
  {
    var l := Removed(d, d.listing[k], removal).listing;
    assert l == Without(d.listing, d.listing[k]);
    assert d.listing[k] in d.listing;
  }

  /** Saving into a listing that keeps its NIMs unique and has no embedding
      file of the key's NIM makes the saved file the only one of that NIM. */
  lemma SavedSole(d: Dir, identity: string, emb: Embedding)
    requires UniqueNims(d.listing) && '_' in identity
    requires forall g :: g in d.listing ==> !HasNim(g, Nim(identity))
    ensures UniqueNims(Saved(d, identity, emb).listing)
    ensures forall g :: g in Saved(d, identity, emb).listing && HasNim(g, Nim(identity)) ==> g == identity + Npy
  {
    var f := identity + Npy;
    NimOfFile(identity);
    SavedFile(identity);
    assert f !in d.listing;
    var l := Saved(d, identity, emb).listing;
    assert l == d.listing + [f];
    assert forall g :: g in l ==> g in d.listing || g == f;
  }

  /** A reported name is the key of the first embedding file, in listing
      order, whose score is the highest; the reported score is that file's score. */
  lemma RecognizedFileIsFirstMaximum(d: Dir, query: Embedding, threshold: real,
                                     similarity: (Embedding, Embedding) -> real)
    requires DirValid(d)
    requires RecognizeUser(d, Face(query), threshold, similarity).value.name.Some?
    ensures var r := RecognizeUser(d, Face(query), threshold, similarity).value;
      exists k :: 0 <= k < |d.listing| && IsNpy(d.listing[k])
        && r.name == Some(KeyOf(d.listing[k]))
        && r.score == Some(similarity(query, d.vectors[d.listing[k]]))
        && r.score.value >= threshold
        && (forall j :: 0 <= j < |d.listing| && IsNpy(d.listing[j]) ==>
              similarity(query, d.vectors[d.listing[j]]) <= r.score.value)
        && (forall j :: 0 <= j < k && IsNpy(d.listing[j]) ==>
              similarity(query, d.vectors[d.listing[j]]) < r.score.value)
  {
    var es := Entries(d.listing, d.vectors, query, similarity);
    Matcher.MatchNameIsFirstMaximum(es, threshold);
    Matcher.MatchCorrect(es, threshold);
    var k :| Matcher.FirstMaximum(es, k) && es[k].score > Matcher.Sentinel
             && Matcher.Match(es, threshold).name == Some(es[k].key)
             && Matcher.Match(es, threshold).score == Some(es[k].score);
    assert IsNpy(d.listing[k]);
    forall j | 0 <= j < |d.listing| && IsNpy(d.listing[j])
      ensures similarity(query, d.vectors[d.listing[j]]) <= es[k].score
    {
      assert es[j].Scored?;
    }
    forall j | 0 <= j < k && IsNpy(d.listing[j])
      ensures similarity(query, d.vectors[d.listing[j]]) < es[k].score
    {
      assert es[j].Scored?;
    }
  }

  /** The three failures of `recognize` stay distinguishable from a match
      result: a decode error and a missing face carry no score and their own
      messages, while a scan always carries a score and says "Matched" or "Unknown". */
  lemma RecognizeOutcomesDistinct(d: Dir, image: Analysis, threshold: real,
                                  similarity: (Embedding, Embedding) -> real)
    requires DirValid(d)
    ensures var r := RecognizeUser(d, image, threshold, similarity);
      && (image.NoFace? ==> r == Returned(Matcher.Recognition(None, None, NoFaceOnRecognize)))
      && (image.DecodeError? ==> r == Returned(Matcher.Recognition(None, None, BrokenImage)))
      && (image.NotAnImage? ==> r == Raised)
      && (image.Face? ==>
            && r.Returned? && r.value.score.Some?
            && (r.value.message == Matcher.MatchedMessage || r.value.message == Matcher.UnknownMessage))
  {
    if image.Face? {
      Matcher.MatchCorrect(Entries(d.listing, d.vectors, image.embedding, similarity), threshold);
    }
  }

  /** The face directory, changed in place by registration. */
  class FaceStore {
    var listing: seq<string>
    var vectors: map<string, Embedding>
    var images: set<string>

    function Snapshot(): Dir
      reads this
    {
      Dir(listing, vectors, images)
    }

    ghost predicate Valid()
      reads this
    {
      DirValid(Snapshot())
    }

    /** The directory as found on disk. */
    constructor Open(d: Dir)
      requires DirValid(d)
      ensures Valid() && Snapshot() == d
    {
      listing, vectors, images := d.listing, d.vectors, d.images;
    }

    /** The `try` block of the supersede loop: delete the `.npy` file, then
        its image if it exists; an error ends the block. */
    method Delete(fname: string, removal: Removal)
      requires Valid()
      modifies this
      ensures Valid()
      ensures Snapshot() == Removed(old(Snapshot()), fname, removal)
    {
      if removal.npyRemoved {
        WithoutDistinct(listing, fname);
        listing := Without(listing, fname);
        vectors := vectors - {fname};
        var oldImage := Replace(fname, Npy, Jpg);
        if oldImage in images && removal.jpgRemoved {
          images := images - {oldImage};
        }
      }
    }

    /** `np.save` of the embedding and `face_pil.save` of the crop. */
    method Write(identity: string, emb: Embedding)
      requires Valid()
      modifies this
      ensures Valid()
      ensures Snapshot() == Saved(old(Snapshot()), identity, emb)
    {
      SavedFile(identity);
      var f := identity + Npy;
      if f !in listing {
        listing := listing + [f];
      }
      vectors := vectors[f := emb];
      images := images + {identity + Jpg};
    }

    /** `register_user(full_identity, img_bytes)`. */
    method Register(identity: string, image: Analysis, removal: Removal) returns (r: Call<Reply>)
      requires Valid()
      modifies this
      ensures Valid()
      ensures (Snapshot(), r) == RegisterUser(old(Snapshot()), identity, image, removal)
    {
      var emb;
      match image {
        case DecodeError(e) => return Returned(Reply(false, ImageErrorPrefix + e));
        case NotAnImage => return Raised;
        case NoFace => return Returned(Reply(false, NoFaceOnRegister));
        case Face(v) => emb := v;
      }
      var nimNew := Nim(identity);
      var status := RegisteredMessage;
      var names := listing;
      var i := 0;
      while i < |names|
        invariant 0 <= i <= |names| && names == old(listing)
        invariant forall j :: 0 <= j < i ==> !HasNim(names[j], nimNew)
        invariant Snapshot() == old(Snapshot()) && status == RegisteredMessage
      {
        var fname := names[i];
        if EndsWith(fname, Npy) {
          var nimOld := Split(fname, '_')[0];
          if nimOld == nimNew {
            assert FirstWithNim(names, nimNew) == Some(i);
            Delete(fname, removal);
            status := UpdatedMessage;
            break;
          }
        }
        i := i + 1;
      }
      ghost var d0, mid := old(Snapshot()), Snapshot();
      if status == RegisteredMessage {
        assert FirstWithNim(names, nimNew).None? && mid == d0;
      } else {
        assert FirstWithNim(names, nimNew) == Some(i) && mid == Removed(d0, names[i], removal);
      }
      Write(identity, emb);
      assert Snapshot() == Saved(mid, identity, emb);
      return Returned(Reply(true, status));
    }

    /** `recognize(img_bytes, threshold)`, with the cosine similarity of the
        query and a stored vector given as `similarity`. */
    method Recognize(image: Analysis, threshold: real, similarity: (Embedding, Embedding) -> real)
      returns (r: Call<Matcher.Recognition>)
      requires Valid()
      ensures r == RecognizeUser(Snapshot(), image, threshold, similarity)
    {
      var query;
      match image {
        case DecodeError(_) => return Returned(Matcher.Recognition(None, None, BrokenImage));
        case NotAnImage => return Raised;
        case NoFace => return Returned(Matcher.Recognition(None, None, NoFaceOnRecognize));
        case Face(q) => query := q;
      }
      ghost var es := Entries(listing, vectors, query, similarity);
      var bestName: Option<string>, bestScore: real := None, Matcher.Sentinel;
      var i := 0;
      while i < |listing|
        invariant 0 <= i <= |listing|
        invariant Matcher.Best(bestName, bestScore) == Matcher.Scan(es[..i])
      {
        assert es[..i + 1][..i] == es[..i];
        var fname := listing[i];
        if !EndsWith(fname, Npy) {
          i := i + 1;
          continue;
        }
        var score := similarity(query, vectors[fname]);
        if score > bestScore {
          bestScore := score;
          bestName := Some(fname[..|fname| - 4]);
        }
        i := i + 1;
      }
      assert es[..|listing|] == es;
      return Returned(Matcher.Decide(Matcher.Best(bestName, bestScore), threshold));
    }
  }
}
