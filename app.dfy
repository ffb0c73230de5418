/**
 * The Flask endpoints around the face store: the identity key built from the
 * request fields, the data-URL prefix of camera captures, the NIM lookup of
 * `/check_user`, and the success decision of `/attendance`.
 */
module App {
  import opened Outcomes
  import opened PyStr
  import opened IdentityStore
  import Matcher

  type Bytes = seq<bv8>

  /** A JSON object or a form whose values are strings. */
  type Fields = map<string, string>

  /** An uploaded file: its client-side file name and its content. A Werkzeug
      upload is truthy exactly when its file name is not empty. */
  datatype Upload = Upload(filename: string, content: Bytes)

  /** `{"success": ..., "message": ...}` with its HTTP status. */
  datatype RegisterResponse = RegisterResponse(status: nat, success: bool, message: string)

  /** The answer of `/attendance`; the 400 answer carries neither name nor score. */
  datatype AttendanceResponse =
    AttendanceResponse(status: nat, success: bool, name: Option<string>, score: Option<real>, message: string)

  /** `{"exists": ..., "old_name": ...}` with its HTTP status. */
  datatype CheckResponse = CheckResponse(status: nat, registered: bool, oldName: Option<string>)

  const MissingJsonFields := "Data tidak lengkap"
  const MissingFormFields := "Data kurang"
  const Base64Error := "Base64 Error"
  const NoImage := "No Image"
  const UnnamedUser := "User"

  /** `f"{nim.strip()}_{name.strip()}"`: the key splits into the parts of the
      stripped NIM followed by the parts of the stripped name, so its NIM is
      the stripped NIM up to its first underscore. */
  function IdentityKey(nim: string, name: string): (key: string)
    ensures Split(key, '_') == Split(Strip(nim), '_') + Split(Strip(name), '_')
    ensures Nim(key) == Nim(Strip(nim))
  {
    SplitAppend(Strip(nim), Strip(name), '_');
    Strip(nim) + "_" + Strip(name)
  }

  /** A NIM and a name without underscores are read back from the key unchanged. */
  lemma IdentityKeyParts(nim: string, name: string)
    requires '_' !in Strip(nim) && '_' !in Strip(name)
    ensures Split(IdentityKey(nim, name), '_') == [Strip(nim), Strip(name)]
    ensures Nim(IdentityKey(nim, name)) == Strip(nim)
    ensures IdentityKey(nim, name) == Join([Strip(nim), Strip(name)], '_')
  {
    var a, b := Strip(nim), Strip(name);
    var key := IdentityKey(nim, name);
    SplitParts(a, '_');
    SplitParts(b, '_');
    var parts := Split(key, '_');
    assert parts == [a] + [b] == [a, b];
    assert Nim(key) == parts[0] == a;
    assert [a, b][1..] == [b];
  }

  /** `image.split(",")[1] if "," in image else image`: the payload never
      holds a comma, and a string without one is passed on unchanged. */
  function Payload(image: string): (p: string)
    ensures ',' !in p
    ensures ',' !in image ==> p == image
  {
    if ',' in image then
      SplitSecond(image, ',');
      SplitParts(image, ',');
      Split(image, ',')[1]
    else image
  }

  /** The payload of a data URL is the text after its first comma, up to the
      next comma if there is one; a string without a comma is its own payload. */
  lemma PayloadOfDataUrl(header: string, data: string, rest: string)
    requires ',' !in header && ',' !in data
    requires rest == [] || rest[0] == ','
    ensures Payload(header + "," + data + rest) == data
    ensures Payload(data) == data
  {
    SplitParts(header, ',');
    SplitParts(data, ',');
    var tail := data + rest;
    var s := header + "," + data + rest;
    assert s == header + [','] + tail && s[|header|] == ',';
    SplitAppend(header, tail, ',');
    assert Split(s, ',')[1] == Split(tail, ',')[0];
    IndexOfAppend(data, rest, ',');
    SplitFirst(tail, ',');
    assert tail[..|data|] == data;
  }

  /** `parts[1].replace(".npy", "") if len(parts) > 1 else "User"` for
      `parts = fname.split('_')`. */
  function OldName(fname: string): string {
    var parts := Split(fname, '_');
    if |parts| > 1 then Replace(parts[1], Npy, "") else UnnamedUser
  }

  /** The old name of a file written for `nim_name` is `name`, when neither
      holds an underscore and the name holds no ".npy". */
  lemma OldNameOfKey(nim: string, name: string)
    requires '_' !in nim && '_' !in name && !Contains(name, Npy)
    ensures OldName(nim + "_" + name + Npy) == name
  {
    assert nim + "_" + name + Npy == nim + ['_'] + (name + Npy);
    SplitAppend(nim, name + Npy, '_');
    SplitParts(nim, '_');
    assert '_' !in name + Npy;
    SplitParts(name + Npy, '_');
    ReplaceSuffix(name, Npy, "");
  }

  /** A name holding underscores is reported only up to its first underscore. */
  lemma OldNameTruncates(nim: string, first: string, rest: string)
    requires '_' !in nim && '_' !in first && !Contains(first, Npy)
    ensures OldName(nim + "_" + first + "_" + rest + Npy) == first
  {
    assert nim + "_" + first + "_" + rest + Npy == nim + ['_'] + (first + ['_'] + (rest + Npy));
    SplitAppend(nim, first + ['_'] + (rest + Npy), '_');
    SplitAppend(first, rest + Npy, '_');
    SplitParts(nim, '_');
    SplitParts(first, '_');
    ReplaceAbsent(first, Npy, "");
  }

  /** What `check_user_exists` answers for the listed file names. */
  function CheckUser(listing: seq<string>, data: Option<Fields>): CheckResponse {
    if data.None? || "nim" !in data.value then CheckResponse(400, false, None)
    else match FirstWithNim(listing, Strip(data.value["nim"]))
      case None => CheckResponse(200, false, None)
      case Some(k) => CheckResponse(200, true, Some(OldName(listing[k])))
  }

  /** `check_user` reports a registration exactly when some embedding file has
      the stripped NIM, and then the old name of the first such file. */
  lemma CheckUserCorrect(listing: seq<string>, nim: string)
    ensures var r := CheckUser(listing, Some(map["nim" := nim]));
      && r.status == 200
      && (r.registered <==> exists j :: 0 <= j < |listing| && HasNim(listing[j], Strip(nim)))
      && (!r.registered ==> r.oldName == None)
      && (r.registered ==>
            exists k :: 0 <= k < |listing| && HasNim(listing[k], Strip(nim))
              && (forall j :: 0 <= j < k ==> !HasNim(listing[j], Strip(nim)))
              && r.oldName == Some(OldName(listing[k])))
  {
    var data := map["nim" := nim];
    assert "nim" in data && data["nim"] == nim;
    var first := FirstWithNim(listing, Strip(nim));
    var r := CheckUser(listing, Some(data));
    if first.Some? {
      var k := first.value;
      assert r == CheckResponse(200, true, Some(OldName(listing[k])));
      assert HasNim(listing[k], Strip(nim));
    } else {
      assert r == CheckResponse(200, false, None);
    }
  }

  /** `check_user_exists()`: a search of the listing with an early return. */
  method CheckUserExists(store: FaceStore, data: Option<Fields>) returns (r: CheckResponse)
    ensures r == CheckUser(store.listing, data)
  {
    if data.None? || "nim" !in data.value {
      return CheckResponse(400, false, None);
    }
    var target := Strip(data.value["nim"]);
    var names := store.listing;
    var i := 0;
    while i < |names|
      invariant 0 <= i <= |names|
      invariant forall j :: 0 <= j < i ==> !HasNim(names[j], target)
    {
      var fname := names[i];
      if EndsWith(fname, Npy) {
        var parts := Split(fname, '_');
        var existingNim := parts[0];
        if existingNim == target {
          var existingName := OldName(fname);
          CheckUserFound(names, data.value, i);
          return CheckResponse(200, true, Some(existingName));
        }
      }
      i := i + 1;
    }
    CheckUserMissing(names, data.value);
    return CheckResponse(200, false, None);
  }

  /** The lookup answers with the file at which the search loop stops. */
  lemma CheckUserFound(listing: seq<string>, fields: Fields, i: int)
    requires "nim" in fields && 0 <= i < |listing| && HasNim(listing[i], Strip(fields["nim"]))
    requires forall j :: 0 <= j < i ==> !HasNim(listing[j], Strip(fields["nim"]))
    ensures CheckUser(listing, Some(fields)) == CheckResponse(200, true, Some(OldName(listing[i])))
  {
    var target := Strip(fields["nim"]);
    var k := FirstWithNim(listing, target);
    assert k.Some? by {
      assert HasNim(listing[i], target);
    }
    assert k.value == i by {
      assert !(k.value < i) && !(i < k.value);
    }
  }

  /** The lookup answers "not registered" when the search loop runs to the end. */
  lemma CheckUserMissing(listing: seq<string>, fields: Fields)
    requires "nim" in fields
    requires forall j :: 0 <= j < |listing| ==> !HasNim(listing[j], Strip(fields["nim"]))
    ensures CheckUser(listing, Some(fields)) == CheckResponse(200, false, None)
  {
  }

  /** `jsonify({"success": ok, "message": msg})` for what `register_user` returned. */
  function Respond(c: Call<Reply>): Call<RegisterResponse> {
    match c
    case Raised => Raised
    case Returned(reply) => Returned(RegisterResponse(200, reply.ok, reply.message))
  }

  /** `api_register_camera()`: a JSON body with a base64 image, possibly a data URL. */
  method ApiRegisterCamera(store: FaceStore, data: Option<Fields>, b64decode: string -> Option<Bytes>,
                           analyze: Bytes -> Analysis, removal: Removal)
    returns (r: Call<RegisterResponse>)
    requires store.Valid()
    modifies store
    ensures store.Valid()
    ensures data.None? || "nim" !in data.value || "name" !in data.value || "image" !in data.value ==>
              r == Returned(RegisterResponse(400, false, MissingJsonFields))
              && store.Snapshot() == old(store.Snapshot())
    ensures data.Some? && "nim" in data.value && "name" in data.value && "image" in data.value ==>
              var bytes := b64decode(Payload(data.value["image"]));
              && (bytes.None? ==>
                    r == Returned(RegisterResponse(400, false, Base64Error))
                    && store.Snapshot() == old(store.Snapshot()))
              && (bytes.Some? ==>
                    var (d', c) := RegisterUser(old(store.Snapshot()),
                                                IdentityKey(data.value["nim"], data.value["name"]),
                                                analyze(bytes.value), removal);
                    store.Snapshot() == d' && r == Respond(c))
  {
    if data.None? || "nim" !in data.value || "name" !in data.value || "image" !in data.value {
      return Returned(RegisterResponse(400, false, MissingJsonFields));
    }
    var fields := data.value;
    var fullIdentity := IdentityKey(fields["nim"], fields["name"]);
    var imageBase64 := Payload(fields["image"]);
    var imgBytes := b64decode(imageBase64);
    if imgBytes.None? {
      return Returned(RegisterResponse(400, false, Base64Error));
    }
    var c := store.Register(fullIdentity, analyze(imgBytes.value), removal);
    r := Respond(c);
  }

  /** `api_register()`: form fields and an uploaded photo. */
  method ApiRegister(store: FaceStore, form: Fields, files: map<string, Upload>,
                     analyze: Bytes -> Analysis, removal: Removal)
    returns (r: Call<RegisterResponse>)
    requires store.Valid()
    modifies store
    ensures store.Valid()
    ensures "nim" !in form || "name" !in form || "photo" !in files ==>
              r == Returned(RegisterResponse(400, false, MissingFormFields))
              && store.Snapshot() == old(store.Snapshot())
    ensures "nim" in form && "name" in form && "photo" in files ==>
              var (d', c) := RegisterUser(old(store.Snapshot()), IdentityKey(form["nim"], form["name"]),
                                          analyze(files["photo"].content), removal);
              store.Snapshot() == d' && r == Respond(c)
  {
    if "nim" !in form || "name" !in form || "photo" !in files {
      return Returned(RegisterResponse(400, false, MissingFormFields));
    }
    var fullIdentity := IdentityKey(form["nim"], form["name"]);
    var c := store.Register(fullIdentity, analyze(files["photo"].content), removal);
    r := Respond(c);
  }

  /** `request.files.get("photo") or request.files.get("image")`. */
  function ChosenUpload(files: map<string, Upload>): Option<Upload> {
    if "photo" in files && files["photo"].filename != "" then Some(files["photo"])
    else if "image" in files then Some(files["image"])
    else None
  }

  /** `api_attendance()` without the log line it appends: the attendance
      succeeds exactly when `recognize` reports a non-empty name, which it
      passes on with the score and message; otherwise no name is reported but
      the score and message are passed on all the same. */
  method ApiAttendance(store: FaceStore, files: map<string, Upload>, analyze: Bytes -> Analysis,
                       similarity: (Embedding, Embedding) -> real)
    returns (r: Call<AttendanceResponse>)
    requires store.Valid()
    ensures var u := ChosenUpload(files);
      && (u.None? || u.value.filename == "" ==>
            r == Returned(AttendanceResponse(400, false, None, None, NoImage)))
      && (u.Some? && u.value.filename != "" ==>
            var c := RecognizeUser(store.Snapshot(), analyze(u.value.content), Matcher.DefaultThreshold, similarity);
            && (c.Raised? <==> r.Raised?)
            && (c.Returned? ==>
                  && r.Returned? && r.value.status == 200
                  && (r.value.success <==> c.value.name.Some? && c.value.name.value != "")
                  && r.value.name == (if r.value.success then c.value.name else None)
                  && r.value.score == c.value.score
                  && r.value.message == c.value.message))
  {
    var file := ChosenUpload(files);
    if file.None? || file.value.filename == "" {
      return Returned(AttendanceResponse(400, false, None, None, NoImage));
    }
    var c := store.Recognize(analyze(file.value.content), Matcher.DefaultThreshold, similarity);
    if c.Raised? {
      return Raised;
    }
    var Recognition(name, score, msg) := c.value;
    if name.Some? && name.value != "" {
      return Returned(AttendanceResponse(200, true, name, score, msg));
    } else {
      return Returned(AttendanceResponse(200, false, None, score, msg));
    }
  }
}
