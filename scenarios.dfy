/**
 * What registration, the NIM lookup and recognition promise together: the
 * round trips a user of the service sees across several requests.
 */
module Scenarios {
  import opened Outcomes
  import opened PyStr
  import opened IdentityStore
  import opened App
  import Matcher

  /** A key as the endpoints build it contains the underscore they put in. */
  lemma KeyHasUnderscore(nim: string, name: string)
    ensures '_' in IdentityKey(nim, name)
  {
    assert IdentityKey(nim, name)[|Strip(nim)|] == '_';
  }

  /** After `nim`/`name` is registered (with the old files deleted), the NIM
      lookup, asked with the same NIM up to surrounding whitespace, reports
      the user as registered under the stripped name. */
  lemma RegisterThenCheckUser(d: Dir, nim: string, name: string, emb: Embedding,
                              jpgRemoved: bool, askedNim: string)
    requires DirValid(d) && UniqueNims(d.listing)
    requires '_' !in Strip(nim) && '_' !in Strip(name) && !Contains(Strip(name), Npy)
    requires Strip(askedNim) == Strip(nim)
    ensures var d' := RegisterUser(d, IdentityKey(nim, name), Face(emb), Removal(true, jpgRemoved)).0;
      CheckUser(d'.listing, Some(map["nim" := askedNim])) == CheckResponse(200, true, Some(Strip(name)))
  {
    var key := IdentityKey(nim, name);
    var f := key + Npy;
    var d' := RegisterUser(d, key, Face(emb), Removal(true, jpgRemoved)).0;
    assert Nim(key) == Strip(nim) && '_' in key by {
      IdentityKeyParts(nim, name);
      KeyHasUnderscore(nim, name);
    }
    assert HasNim(f, Strip(nim)) by {
      NimOfFile(key);
      SavedFile(key);
    }
    assert f in d'.listing by {
      RegisterOutcome(d, key, Face(emb), Removal(true, jpgRemoved));
    }
    assert forall g :: g in d'.listing && HasNim(g, Strip(nim)) ==> g == f by {
      RegisterKeepsNimsUnique(d, key, emb, jpgRemoved);
    }
    OldNameOfKey(Strip(nim), Strip(name));
    LookupOnlyFile(d'.listing, askedNim, f);
  }

  /** A NIM holding an underscore (after stripping) is never found, whatever
      is listed, even right after it was registered: a file's NIM is the text
      before its first underscore, so it holds none. */
  lemma UnderscoreNimNeverFound(listing: seq<string>, nim: string)
    requires '_' in Strip(nim)
    ensures CheckUser(listing, Some(map["nim" := nim])) == CheckResponse(200, false, None)
  {
    forall j | 0 <= j < |listing| ensures !HasNim(listing[j], Strip(nim)) {
      SplitParts(listing[j], '_');
    }
    CheckUserMissing(listing, map["nim" := nim]);
  }

  /** When `f` is the only listed file of a NIM, the lookup reports its old name. */
  lemma LookupOnlyFile(listing: seq<string>, nim: string, f: string)
    requires f in listing && HasNim(f, Strip(nim))
    requires forall g :: g in listing && HasNim(g, Strip(nim)) ==> g == f
    ensures CheckUser(listing, Some(map["nim" := nim])) == CheckResponse(200, true, Some(OldName(f)))
  {
    var data := map["nim" := nim];
    assert "nim" in data && data["nim"] == nim;
    var i :| 0 <= i < |listing| && listing[i] == f;
    var k := FirstWithNim(listing, Strip(nim));
    assert k.Some?;
    assert listing[k.value] == f;
    assert CheckUser(listing, Some(data)) == CheckResponse(200, true, Some(OldName(listing[k.value])));
  }

  /** Re-registering a NIM under another name supersedes the old record: the
      second call reports an update, the old embedding file and image are
      gone, and the new file is the only one of that NIM. */
  lemma ReRegisterSupersedes(d: Dir, nim: string, name1: string, name2: string,
                             e1: Embedding, e2: Embedding, jpgRemoved: bool)
    requires DirValid(d) && UniqueNims(d.listing)
    requires '_' !in Strip(nim) && Strip(name1) != Strip(name2)
    requires !Contains(IdentityKey(nim, name1), Npy)
    ensures var key1 := IdentityKey(nim, name1);
      var key2 := IdentityKey(nim, name2);
      var d1 := RegisterUser(d, key1, Face(e1), Removal(true, jpgRemoved)).0;
      var (d2, r2) := RegisterUser(d1, key2, Face(e2), Removal(true, true));
      Nim(key2) == Strip(nim) && Supersedes(key1, key2, e2, d2, r2)
  {
    var key1 := IdentityKey(nim, name1);
    var key2 := IdentityKey(nim, name2);
    var d1 := RegisterUser(d, key1, Face(e1), Removal(true, jpgRemoved)).0;
    KeysOfOneNim(nim, name1, name2);
    RegisterFace(d, key1, e1, jpgRemoved);
    SupersedeSoleFile(d1, key1, key2, e2);
  }

  /** Two names registered under one NIM without underscores give two
      different keys of that NIM. */
  lemma KeysOfOneNim(nim: string, name1: string, name2: string)
    requires '_' !in Strip(nim) && Strip(name1) != Strip(name2)
    ensures var key1, key2 := IdentityKey(nim, name1), IdentityKey(nim, name2);
      && key1 != key2 && '_' in key1 && '_' in key2
      && Nim(key1) == Strip(nim) && Nim(key2) == Strip(nim)
  {
    var key1, key2 := IdentityKey(nim, name1), IdentityKey(nim, name2);
    assert key1[|Strip(nim)| + 1..] == Strip(name1);
    assert key2[|Strip(nim)| + 1..] == Strip(name2);
    SplitParts(Strip(nim), '_');
    KeyHasUnderscore(nim, name1);
    KeyHasUnderscore(nim, name2);
  }

  /** The second registration of a NIM as `SupersedeSoleFile` describes it:
      an update reply, the new key's files in place, the old key's files
      gone, and the new embedding file the only one of its NIM. */
  ghost predicate Supersedes(oldKey: string, key: string, emb: Embedding, d': Dir, r: Call<Reply>) {
    && r == Returned(Reply(true, UpdatedMessage))
    && key + Npy in d'.listing && key + Npy in d'.vectors && d'.vectors[key + Npy] == emb
    && key + Jpg in d'.images
    && oldKey + Npy !in d'.listing && oldKey + Jpg !in d'.images
    && UniqueNims(d'.listing)
    && forall f :: f in d'.listing && HasNim(f, Nim(key)) ==> f == key + Npy
  }

  /** Registering a face with a key holding an underscore keeps the
      directory valid and its NIMs unique, and lists the key's embedding file. */
  lemma RegisterFace(d: Dir, key: string, emb: Embedding, jpgRemoved: bool)
    requires DirValid(d) && UniqueNims(d.listing) && '_' in key
    ensures var d' := RegisterUser(d, key, Face(emb), Removal(true, jpgRemoved)).0;
      && DirValid(d') && UniqueNims(d'.listing)
      && key + Npy in d'.listing && HasNim(key + Npy, Nim(key))
  {
    NimOfFile(key);
    SavedFile(key);
    RegisterOutcome(d, key, Face(emb), Removal(true, jpgRemoved));
    RegisterKeepsNimsUnique(d, key, emb, jpgRemoved);
  }

  /** Registering a key whose NIM has exactly one embedding file, with an
      ordinary key of its own, replaces that file and its image by the new key's. */
  lemma SupersedeSoleFile(d: Dir, oldKey: string, key: string, emb: Embedding)
    requires DirValid(d) && UniqueNims(d.listing) && '_' in key
    requires oldKey + Npy in d.listing && HasNim(oldKey + Npy, Nim(key))
    requires !Contains(oldKey, Npy) && oldKey != key
    ensures var (d', r) := RegisterUser(d, key, Face(emb), Removal(true, true));
      Supersedes(oldKey, key, emb, d', r)
  {
    var i :| 0 <= i < |d.listing| && d.listing[i] == oldKey + Npy;
    var k := FirstWithNim(d.listing, Nim(key));
    assert k.Some?;
    assert d.listing[k.value] == oldKey + Npy;
    RegisterOutcome(d, key, Face(emb), Removal(true, true));
    RegisterDeletesOldRecord(d, key, emb, oldKey);
    RegisterKeepsNimsUnique(d, key, emb, true);
  }

  /** A just-registered face is recognised under its key when its score
      reaches the threshold and beats every other stored vector. */
  lemma RecognizeAfterRegister(d: Dir, identity: string, emb: Embedding, removal: Removal,
                               query: Embedding, threshold: real,
                               similarity: (Embedding, Embedding) -> real)
    requires DirValid(d)
    requires similarity(query, emb) >= threshold && similarity(query, emb) > Matcher.Sentinel
    requires forall f :: f in d.vectors && f != identity + Npy ==>
               similarity(query, d.vectors[f]) < similarity(query, emb)
    ensures var d' := RegisterUser(d, identity, Face(emb), removal).0;
      && DirValid(d')
      && RecognizeUser(d', Face(query), threshold, similarity)
         == Returned(Matcher.Recognition(Some(identity), Some(similarity(query, emb)), Matcher.MatchedMessage))
  {
    var d' := RegisterUser(d, identity, Face(emb), removal).0;
    var f := identity + Npy;
    assert DirValid(d') && f in d'.listing && d'.vectors[f] == emb by {
      RegisterOutcome(d, identity, Face(emb), removal);
    }
    assert IsNpy(f) && KeyOf(f) == identity by {
      SavedFile(identity);
    }
    assert forall g :: g in d'.listing && g != f && IsNpy(g) ==>
             similarity(query, d'.vectors[g]) < similarity(query, d'.vectors[f]) by {
      RegisterTouchesOnlyFirstMatch(d, identity, emb, removal);
    }
    RecognizeSoleBest(d', f, query, threshold, similarity);
  }

  /** A listed embedding file whose score reaches the threshold and beats
      every other listed file's is what `recognize` reports. */
  lemma RecognizeSoleBest(d: Dir, f: string, query: Embedding, threshold: real,
                          similarity: (Embedding, Embedding) -> real)
    requires DirValid(d) && f in d.listing && IsNpy(f)
    requires similarity(query, d.vectors[f]) >= threshold && similarity(query, d.vectors[f]) > Matcher.Sentinel
    requires forall g :: g in d.listing && g != f && IsNpy(g) ==>
               similarity(query, d.vectors[g]) < similarity(query, d.vectors[f])
    ensures RecognizeUser(d, Face(query), threshold, similarity)
            == Returned(Matcher.Recognition(Some(KeyOf(f)), Some(similarity(query, d.vectors[f])), Matcher.MatchedMessage))
  {
    var k :| 0 <= k < |d.listing| && d.listing[k] == f;
    var es := Entries(d.listing, d.vectors, query, similarity);
    EntriesSoleBest(d.listing, d.vectors, query, similarity, k);
    Matcher.ScanFindsFirstMaximum(es, k);
  }

  /** An embedding file whose score beats every other listed file's is the
      first maximum of the scan. */
  lemma EntriesSoleBest(listing: seq<string>, vectors: map<string, Embedding>, query: Embedding,
                        similarity: (Embedding, Embedding) -> real, k: int)
    requires Distinct(listing) && forall f :: f in listing && IsNpy(f) ==> f in vectors
    requires 0 <= k < |listing| && IsNpy(listing[k])
    requires forall g :: g in listing && g != listing[k] && IsNpy(g) ==>
               similarity(query, vectors[g]) < similarity(query, vectors[listing[k]])
    ensures var es := Entries(listing, vectors, query, similarity);
      && es[k] == Matcher.Scored(KeyOf(listing[k]), similarity(query, vectors[listing[k]]))
      && Matcher.FirstMaximum(es, k)
  {
    var es := Entries(listing, vectors, query, similarity);
    forall j | 0 <= j < |es| && es[j].Scored? && j != k
      ensures es[j].score < es[k].score
    {
      assert listing[j] != listing[k];
    }
  }

  /** The NIM of a key is cut at its first underscore, so a NIM that holds an
      underscore supersedes the first embedding file whose NIM is its first part. */
  lemma UnderscoreNimSupersedes(d: Dir, nim: string, name: string, emb: Embedding,
                                first: string, rest: string)
    requires DirValid(d)
    requires Strip(nim) == first + "_" + rest && '_' !in first
    requires exists j :: 0 <= j < |d.listing| && HasNim(d.listing[j], first)
    ensures var key := IdentityKey(nim, name);
      var (d', r) := RegisterUser(d, key, Face(emb), Removal(true, true));
      var k := FirstWithNim(d.listing, first);
      && r == Returned(Reply(true, UpdatedMessage))
      && k.Some?
      && (d.listing[k.value] == key + Npy || d.listing[k.value] !in d'.listing)
  {
    var key := IdentityKey(nim, name);
    assert Nim(key) == first by {
      assert first + "_" + rest == first + ['_'] + rest;
      SplitAppend(first, rest, '_');
      SplitParts(first, '_');
    }
    RegisterOutcome(d, key, Face(emb), Removal(true, true));
  }

  /** A key holding ".npy" breaks the image name: the image removed is the
      file name with every ".npy" replaced, so when that is not the key's own
      image, the superseded embedding file goes but its image stays behind. */
  lemma OrphanedImage(d: Dir, identity: string, emb: Embedding, oldKey: string)
    requires DirValid(d)
    requires FirstWithNim(d.listing, Nim(identity)).Some?
    requires d.listing[FirstWithNim(d.listing, Nim(identity)).value] == oldKey + Npy
    requires oldKey + Jpg in d.images && oldKey != identity
    requires Replace(oldKey + Npy, Npy, Jpg) != oldKey + Jpg
    ensures var d' := RegisterUser(d, identity, Face(emb), Removal(true, true)).0;
      && oldKey + Npy !in d'.listing
      && oldKey + Jpg in d'.images
  {
    assert oldKey + Npy != identity + Npy by {
      assert (oldKey + Npy)[..|oldKey|] == oldKey;
      assert (identity + Npy)[..|identity|] == identity;
    }
  }

  /** Such keys exist: for the key ".npy" the image name computed is ".jpg.jpg". */
  lemma NpyKeyImageName()
    ensures Replace(Npy + Npy, Npy, Jpg) == Jpg + Jpg
    ensures Jpg + Jpg != Npy + Jpg
  {
    var s := Npy + Npy;
    assert s[..|Npy|] == Npy && s[|Npy|..] == Npy;
    ReplaceSuffix("", Npy, Jpg);
    assert (Jpg + Jpg)[1] != (Npy + Jpg)[1];
  }

  /** A file named just ".npy" has the empty key: when it scores best the
      scan reports the empty name as "Matched", which the attendance
      endpoint then treats as no name at all. */
  lemma EmptyKeyMatches(emb: Embedding, query: Embedding, similarity: (Embedding, Embedding) -> real)
    requires similarity(query, emb) >= Matcher.DefaultThreshold
    ensures RecognizeUser(Dir([Npy], map[Npy := emb], {}), Face(query), Matcher.DefaultThreshold, similarity)
            == Returned(Matcher.Recognition(Some(""), Some(similarity(query, emb)), Matcher.MatchedMessage))
  {
    var d := Dir([Npy], map[Npy := emb], {});
    assert IsNpy(Npy) && KeyOf(Npy) == "";
    var es := Entries(d.listing, d.vectors, query, similarity);
    assert es[0] == Matcher.Scored("", similarity(query, emb));
    assert es[..|es| - 1] == [];
    assert Matcher.Scan(es) == Matcher.Best(Some(""), similarity(query, emb));
    assert DirValid(d);
    assert RecognizeUser(d, Face(query), Matcher.DefaultThreshold, similarity) == Returned(Matcher.Match(es, Matcher.DefaultThreshold));
  }
}
