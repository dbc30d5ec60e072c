/**
 * Model of `src/cmd/transcribe.py`: the transcription driver. It scans two
 * directories of JPEG page photos (reference photos with human annotations,
 * and work photos), and repeatedly asks a vision model to transcribe the first
 * work photo that has no transcription yet, sending the reference examples
 * followed by a window of the work already done, then saves the answer next
 * to the photo.
 *
 * The file system is the map `FileSystem` from the path of each text file to
 * its content; "has a transcription" and "has an annotation" are membership
 * of the derived paths. A photo's pixels are referred to by its path. The
 * model API is the function `respond` from the sent conversation to the
 * returned text.
 */
module Transcribe {
  import opened Base
  import opened Strings
  import opened PosixPath
  import opened Sorting

  /** The text files present: path to content. */
  type FileSystem = map<string, string>

  /**
   * The `ValueError`s the driver raises, told apart by their messages; the
   * last is the one `range` raises for a step of zero.
   */
  datatype Error = NotJpeg | MissingAnnotation | AllTranscribed | ZeroChunkSize
  {
    /** The message the `ValueError` carries. */
    function ErrorMessage(): string {
      match this
      case NotJpeg => "Photo must be in JPEG format"
      case MissingAnnotation => "Annotation must be provided for system message"
      case AllTranscribed => "All images have been transcribed"
      case ZeroChunkSize => "range() arg 3 must not be zero"
    }
  }

  // ---------------------------------------------------------------------
  // PhotoTranscription
  // ---------------------------------------------------------------------

  /**
   * `PhotoTranscription`, a frozen record holding one image path. The path is
   * kept split where `os.path.splitext` splits it: `_transcription_path` and
   * `_annotation_path` both start from that stem. `MakePhoto` builds it.
   */
  datatype Photo = Photo(stem: string, extension: string)
  {
    /** `image_path`. */
    function ImagePath(): string {
      stem + extension
    }
  }

  /** The record for an image path. */
  function MakePhoto(path: string): Photo {
    var (stem, extension) := Splitext(path);
    Photo(stem, extension)
  }

  /** The record keeps the whole path. */
  lemma MakePhotoPath(path: string)
    ensures MakePhoto(path).ImagePath() == path
  {
    SplitextParts(path);
  }

  /** The extension test of `from_jpg_path` and `_load_images` (case-sensitive). */
  predicate IsJpegPath(path: string) {
    EndsWith(path, ".jpeg") || EndsWith(path, ".jpg")
  }

  /** `PhotoTranscription.from_jpg_path`. */
  function FromJpgPath(path: string): (r: Result<Photo, Error>)
    ensures r.Ok? <==> IsJpegPath(path)
    ensures r.Ok? ==> r.value == MakePhoto(path) && r.value.ImagePath() == path
    ensures r.Err? ==> r.error == NotJpeg
  {
    if !EndsWith(path, ".jpeg") && !EndsWith(path, ".jpg") then Err(NotJpeg)
    else Ok(MakePhoto(path))
  }

  /** `_transcription_path`. */
  function TranscriptionPath(p: Photo): string {
    p.stem + ".txt"
  }

  /** `_annotation_path`. */
  function AnnotationPath(p: Photo): string {
    p.stem + "_annotation.txt"
  }

  /** `has_transcription`. */
  predicate HasTranscription(p: Photo, fs: FileSystem) {
    TranscriptionPath(p) in fs
  }

  /** `has_annotation`. */
  predicate HasAnnotation(p: Photo, fs: FileSystem) {
    AnnotationPath(p) in fs
  }

  /** `annotation`: the file's content, or `None` when it does not exist. */
  function Annotation(p: Photo, fs: FileSystem): Option<string> {
    if HasAnnotation(p, fs) then Some(fs[AnnotationPath(p)]) else None
  }

  /** `save_transcription`: write (or overwrite) the transcription file. */
  function SaveTranscription(p: Photo, text: string, fs: FileSystem): FileSystem {
    fs[TranscriptionPath(p) := text]
  }

  /** The two companion files differ from each other and, for a JPEG photo, from the image itself. */
  lemma CompanionPaths(p: Photo)
    ensures TranscriptionPath(p) != AnnotationPath(p)
    ensures IsJpegPath(p.ImagePath()) ==> TranscriptionPath(p) != p.ImagePath() && AnnotationPath(p) != p.ImagePath()
  {
    var s := p.stem;
    assert TranscriptionPath(p)[|s|] == '.' && AnnotationPath(p)[|s|] == '_';
    var t, a, i := TranscriptionPath(p), AnnotationPath(p), p.ImagePath();
    assert t[|t| - 1] == 't' && a[|a| - 1] == 't';
    if IsJpegPath(i) {
      assert i[|i| - 1] == 'g';
    }
  }

  /**
   * For a JPEG path whose file name has a character other than `.` before the
   * extension, the stem is the path without the extension.
   */
  lemma MakePhotoOfJpeg(path: string, ext: string)
    requires ext == ".jpg" || ext == ".jpeg"
    requires EndsWith(path, ext)
    requires HasNonDotBetween(path, RFind(path, '/') + 1, |path| - |ext|)
    ensures MakePhoto(path) == Photo(path[..|path| - |ext|], ext)
  {
    assert IsOneExtension(ext);
    SplitextOfExtension(path, ext);
  }

  /** A file named only `.jpg` has no extension for `splitext`: its transcription is `.jpg.txt`. */
  lemma HiddenJpegCompanion()
    ensures TranscriptionPath(MakePhoto("scans/.jpg")) == "scans/.jpg.txt"
  {
    var path := "scans/.jpg";
    RFindAt(path, '/', 5);
    RFindAt(path, '.', 6);
  }

  /** Saving marks as transcribed exactly the photos that share the saved photo's transcription file. */
  lemma SaveTranscriptionEffect(p: Photo, text: string, fs: FileSystem, q: Photo)
    ensures HasTranscription(q, SaveTranscription(p, text, fs)) <==> HasTranscription(q, fs) || TranscriptionPath(q) == TranscriptionPath(p)
    ensures SaveTranscription(p, text, fs)[TranscriptionPath(p)] == text
    ensures forall path :: path != TranscriptionPath(p) ==>
      (path in SaveTranscription(p, text, fs) <==> path in fs) &&
      (path in fs ==> SaveTranscription(p, text, fs)[path] == fs[path])
  {
  }

  /**
   * The photo for `stem + ext`, for a JPEG extension and a stem whose last
   * character is neither `.` nor `/`, has that stem: its companions are
   * `stem.txt` and `stem_annotation.txt`.
   */
  lemma JpegCompanions(stem: string, ext: string)
    requires ext == ".jpg" || ext == ".jpeg"
    requires |stem| > 0 && stem[|stem| - 1] != '.' && stem[|stem| - 1] != '/'
    ensures MakePhoto(stem + ext) == Photo(stem, ext)
    ensures TranscriptionPath(MakePhoto(stem + ext)) == stem + ".txt"
    ensures AnnotationPath(MakePhoto(stem + ext)) == stem + "_annotation.txt"
  {
    var p := stem + ext;
    assert EndsWith(p, ext) by { assert p[|p| - |ext|..] == ext; }
    var sep := RFind(p, '/');
    RFindSpec(p, '/');
    assert forall j :: |stem| <= j < |p| ==> p[j] == ext[j - |stem|];
    assert sep < |stem| - 1 by {
      assert forall j :: |stem| - 1 <= j < |p| ==> p[j] != '/';
    }
    assert p[|stem| - 1] != '.';
    HasNonDotAt(p, sep + 1, |p| - |ext|, |stem| - 1);
    assert p[..|p| - |ext|] == stem;
    MakePhotoOfJpeg(p, ext);
  }

  /** `a.jpg` and `a.jpeg` share `a.txt`: transcribing one marks the other as done too. */
  lemma SharedTranscriptionFile(stem: string, text: string, fs: FileSystem)
    requires |stem| > 0 && stem[|stem| - 1] != '.' && stem[|stem| - 1] != '/'
    ensures MakePhoto(stem + ".jpg") != MakePhoto(stem + ".jpeg")
    ensures TranscriptionPath(MakePhoto(stem + ".jpg")) == TranscriptionPath(MakePhoto(stem + ".jpeg"))
    ensures HasTranscription(MakePhoto(stem + ".jpeg"), SaveTranscription(MakePhoto(stem + ".jpg"), text, fs))
  {
    JpegCompanions(stem, ".jpg");
    JpegCompanions(stem, ".jpeg");
  }

  /** The transcription of `a_annotation.jpg` is written over the annotation of `a.jpg`. */
  lemma TranscriptionOverwritesAnnotation(stem: string)
    requires |stem| > 0 && stem[|stem| - 1] != '.' && stem[|stem| - 1] != '/'
    ensures TranscriptionPath(MakePhoto(stem + "_annotation.jpg")) == AnnotationPath(MakePhoto(stem + ".jpg"))
  {
    var s2 := stem + "_annotation";
    assert s2[|s2| - 1] == 'n';
    assert s2 + ".jpg" == stem + "_annotation.jpg";
    JpegCompanions(s2, ".jpg");
    JpegCompanions(stem, ".jpg");
    assert s2 + ".txt" == stem + "_annotation.txt";
  }

  // ---------------------------------------------------------------------
  // Messages
  // ---------------------------------------------------------------------

  datatype Role = System | User | Assistant

  /** A content part: plain text, or an inlined image (`_image_to_content`) named by its file. */
  datatype Part = Text(text: string) | Image(ref: string)

  datatype Message = Message(role: Role, parts: seq<Part>)

  const UserPrompt := "Transcribe the following image"

  /** Appended when an annotation exists. Not an f-string in the source: the braces are literal. */
  const AnnotationHint := " by using the following human transcription as base:\n{self.annotation}"

  const ReferencePrefix := "Example of the best manual transcription by a human of the image above:\n"

  /** The system prompt, sentence by sentence and line by line. */
  const RoleSentence1 := "You are an expert Spanish colonial era archivist of documents from 1772 in Puebla, Mexico."
  const RoleSentence2 := "The documents are marriage dispensations for the racialized communities of New Spain."
  const RoleSentence3 := "The documents were handwritten by notaries and archbishops."
  const RoleSentence4 := "You are also an expert in reading cursive and able to spot similar characters."
  const InstructionLine1 := "Here are instructions for transcribing the photos of documents:"
  const InstructionLine2 := "- A user will provide you with photos of the documents. You will transcribe the photos into text."
  const InstructionLine3 := "- Cross-reference Spanish dictionaries and historical documents to ensure accuracy of words."
  const InstructionLine4 := "- Transcribe exactly as written, preserve all spellings."
  const InstructionLine5 := "- Use human transcriptions as examples to guide transcribing."
  const InstructionLine6 := "- If uncertain, use '[...]'"
  const ExamplesLine := "The user will provide the best human-transcribed pages of documents from the same archive that should be used as examples to transcribe newly provided photos:"

  /** The instruction text of `_make_system_messages`: the role, the rules and the announcement of the examples. */
  function SystemPrompt(): string {
    RoleSentence1 + " " + RoleSentence2 + " " + RoleSentence3 + " " + RoleSentence4 + "\n\n" +
    InstructionLine1 + "\n" + InstructionLine2 + "\n" + InstructionLine3 + "\n" + InstructionLine4 + "\n" +
    InstructionLine5 + "\n" + InstructionLine6 + "\n\n" +
    ExamplesLine
  }

  /** The first message of every conversation. */
  const SystemInstruction := Message(System, [Text(SystemPrompt())])

  /** `user_message`. */
  function UserMessage(p: Photo, fs: FileSystem): Message {
    var text := if HasAnnotation(p, fs) then UserPrompt + AnnotationHint else UserPrompt;
    Message(User, [Text(text), Image(p.ImagePath())])
  }

  /** `assistant_message`; its one caller sends it only for a transcribed photo. */
  function AssistantMessage(p: Photo, fs: FileSystem): Message
    requires HasTranscription(p, fs)
  {
    Message(Assistant, [Text(fs[TranscriptionPath(p)])])
  }

  /** A reference photo's example message: the image, then the annotation as the model answer. */
  function ReferenceMessage(p: Photo, annotation: string): Message {
    Message(User, [Image(p.ImagePath()), Text(ReferencePrefix + annotation)])
  }

  /** The annotation file exists and is not empty (`if not annotation` rejects both). */
  predicate HasUsableAnnotation(p: Photo, fs: FileSystem) {
    HasAnnotation(p, fs) && fs[AnnotationPath(p)] != ""
  }

  /** `system_message`. */
  function SystemMessage(p: Photo, fs: FileSystem): Result<Message, Error> {
    match Annotation(p, fs)
    case None => Err(MissingAnnotation)
    case Some(a) => if a == "" then Err(MissingAnnotation) else Ok(ReferenceMessage(p, a))
  }

  /**
   * The user message's text depends only on whether the annotation file
   * exists: its content is never sent with a work photo.
   */
  lemma UserMessageIgnoresAnnotationContent(p: Photo, fs1: FileSystem, fs2: FileSystem)
    requires HasAnnotation(p, fs1) == HasAnnotation(p, fs2)
    ensures UserMessage(p, fs1) == UserMessage(p, fs2)
    ensures UserMessage(p, fs1).parts[0].text == UserPrompt ||
            UserMessage(p, fs1).parts[0].text == UserPrompt + AnnotationHint
  {
  }

  /** `[image.system_message for image in images]`, raising at the first photo without a usable annotation. */
  function ReferenceMessages(images: seq<Photo>, fs: FileSystem): Result<seq<Message>, Error> {
    if images == [] then Ok([])
    else
      match SystemMessage(images[0], fs)
      case Err(e) => Err(e)
      case Ok(m) =>
        match ReferenceMessages(images[1..], fs)
        case Err(e) => Err(e)
        case Ok(ms) => Ok([m] + ms)
  }

  /** The examples are built exactly when every reference photo has a usable annotation, one per photo, in order. */
  lemma {:induction false} ReferenceMessagesSpec(images: seq<Photo>, fs: FileSystem)
    ensures var r := ReferenceMessages(images, fs);
      (r.Ok? <==> forall i :: 0 <= i < |images| ==> HasUsableAnnotation(images[i], fs)) &&
      (r.Ok? ==> |r.value| == |images|) &&
      (r.Ok? ==> forall i :: 0 <= i < |images| ==> r.value[i] == ReferenceMessage(images[i], fs[AnnotationPath(images[i])])) &&
      (r.Err? ==> r.error == MissingAnnotation)
  {
    if images != [] {
      var tail := images[1..];
      ReferenceMessagesSpec(tail, fs);
      assert forall i :: 0 < i < |images| ==> images[i] == tail[i - 1];
    }
  }

  /** `_make_system_messages`: the instruction, then one example per reference photo, in order. */
  function MakeSystemMessages(images: seq<Photo>, fs: FileSystem): Result<seq<Message>, Error> {
    match ReferenceMessages(images, fs)
    case Err(e) => Err(e)
    case Ok(ms) => Ok([SystemInstruction] + ms)
  }

  /**
   * The system messages are the instruction followed by one example per
   * reference photo, in order; any photo without a usable annotation makes
   * the call fail with the missing-annotation error.
   */
  lemma SystemMessagesSpec(images: seq<Photo>, fs: FileSystem)
    ensures var r := MakeSystemMessages(images, fs);
      (r.Ok? <==> forall i :: 0 <= i < |images| ==> HasUsableAnnotation(images[i], fs)) &&
      (r.Ok? ==> |r.value| == 1 + |images| && r.value[0] == SystemInstruction) &&
      (r.Ok? ==> forall i :: 0 <= i < |images| ==> r.value[i + 1] == ReferenceMessage(images[i], fs[AnnotationPath(images[i])])) &&
      (r.Err? ==> r.error == MissingAnnotation)
  {
    ReferenceMessagesSpec(images, fs);
    var r := ReferenceMessages(images, fs);
    if r.Ok? {
      var ms := r.value;
      var all := [SystemInstruction] + ms;
      assert forall i :: 0 <= i < |ms| ==> all[i + 1] == ms[i];
    }
  }

  // ---------------------------------------------------------------------
  // Chunking (`_images_to_messages`, which nothing calls)
  // ---------------------------------------------------------------------

  const MaxImagesPerMessage := 4

  /** The image parts for the given images, in order. */
  function ImageParts(refs: seq<string>): seq<Part> {
    if refs == [] then [] else [Image(refs[0])] + ImageParts(refs[1..])
  }

  /** One chunk's message: the fixed prompt, then one image part per image. */
  function ImagesMessage(refs: seq<string>): Message {
    Message(User, [Text(UserPrompt)] + ImageParts(refs))
  }

  /** The images a list of parts carries, in order. */
  function PartImages(parts: seq<Part>): seq<string> {
    if parts == [] then [] else (if parts[0].Image? then [parts[0].ref] else []) + PartImages(parts[1..])
  }

  /** The images a list of messages carries, in order. */
  function MessagesImages(messages: seq<Message>): seq<string> {
    if messages == [] then [] else PartImages(messages[0].parts) + MessagesImages(messages[1..])
  }

  function Min(a: int, b: int): int {
    if a <= b then a else b
  }

  /** The messages for the chunks starting at `x`, `x + m`, ... below `|images|`. */
  function ChunksFrom(images: seq<string>, m: nat, x: nat): seq<Message>
    requires m > 0
    decreases |images| - x
  {
    if x >= |images| then [] else [ImagesMessage(images[x..Min(x + m, |images|)])] + ChunksFrom(images, m, x + m)
  }

  /**
   * `_images_to_messages(images, m)`: one message per slice
   * `images[x:x+m]` for `x` in `range(0, len(images), m)`. A step of zero
   * makes `range` raise; a negative step gives an empty range.
   */
  function ImagesToMessages(images: seq<string>, maxImagesPerMessage: int): Result<seq<Message>, Error> {
    if maxImagesPerMessage == 0 then Err(ZeroChunkSize)
    else if maxImagesPerMessage < 0 then Ok([])
    else Ok(ChunksFrom(images, maxImagesPerMessage, 0))
  }

  /** A chunk's message carries exactly the chunk's images. */
  lemma {:induction false} ImagePartsImages(refs: seq<string>)
    ensures PartImages(ImageParts(refs)) == refs
  {
    if refs != [] {
      ImagePartsImages(refs[1..]);
      assert ImageParts(refs) == [Image(refs[0])] + ImageParts(refs[1..]);
    }
  }

  lemma ImagesMessageImages(refs: seq<string>)
    ensures PartImages(ImagesMessage(refs).parts) == refs
  {
    var parts := ImagesMessage(refs).parts;
    assert parts[1..] == ImageParts(refs);
    ImagePartsImages(refs);
  }

  /** The images of a message list with one more message in front. */
  lemma MessagesImagesCons(m: Message, rest: seq<Message>)
    ensures MessagesImages([m] + rest) == PartImages(m.parts) + MessagesImages(rest)
  {
    assert ([m] + rest)[1..] == rest;
  }

  /** The chunks from `x` carry `images[x..]`, in order. */
  lemma {:induction false} ChunksFromImages(images: seq<string>, m: nat, x: nat)
    requires m > 0 && x <= |images|
    ensures MessagesImages(ChunksFrom(images, m, x)) == images[x..]
    decreases |images| - x
  {
    if x < |images| {
      var chunk := images[x..Min(x + m, |images|)];
      var rest := ChunksFrom(images, m, x + m);
      assert ChunksFrom(images, m, x) == [ImagesMessage(chunk)] + rest;
      MessagesImagesCons(ImagesMessage(chunk), rest);
      ImagesMessageImages(chunk);
      assert MessagesImages(ChunksFrom(images, m, x)) == chunk + MessagesImages(rest);
      if x + m < |images| {
        ChunksFromImages(images, m, x + m);
        assert images[x..] == chunk + images[x + m..];
      } else {
        assert rest == [] && chunk == images[x..];
      }
    }
  }

  /** Each chunk's message is the prompt and its own images: 1 to `m` of them, exactly `m` in all but the last. */
  lemma {:induction false} ChunksFromSizes(images: seq<string>, m: nat, x: nat)
    requires m > 0
    ensures forall j :: 0 <= j < |ChunksFrom(images, m, x)| ==>
      var c := ChunksFrom(images, m, x)[j];
      c == ImagesMessage(PartImages(c.parts)) && 1 <= |PartImages(c.parts)| <= m &&
      (j < |ChunksFrom(images, m, x)| - 1 ==> |PartImages(c.parts)| == m)
    decreases |images| - x
  {
    if x < |images| {
      var chunk := images[x..Min(x + m, |images|)];
      var rest := ChunksFrom(images, m, x + m);
      var r := ChunksFrom(images, m, x);
      assert r == [ImagesMessage(chunk)] + rest;
      ImagesMessageImages(chunk);
      ChunksFromSizes(images, m, x + m);
      forall j | 0 <= j < |r|
        ensures r[j] == ImagesMessage(PartImages(r[j].parts))
        ensures 1 <= |PartImages(r[j].parts)| <= m
        ensures j < |r| - 1 ==> |PartImages(r[j].parts)| == m
      {
        if j > 0 {
          assert r[j] == rest[j - 1];
        } else {
          assert |rest| > 0 ==> x + m < |images|;
        }
      }
    }
  }

  /** There are ceil((|images| - x) / m) chunks. */
  lemma {:induction false} ChunksFromCount(images: seq<string>, m: nat, x: nat)
    requires m > 0 && x <= |images|
    ensures |ChunksFrom(images, m, x)| == 0 <==> x == |images|
    ensures |ChunksFrom(images, m, x)| > 0 ==>
      (|ChunksFrom(images, m, x)| - 1) * m < |images| - x <= |ChunksFrom(images, m, x)| * m
    decreases |images| - x
  {
    if x < |images| {
      var k := |ChunksFrom(images, m, x + m)|;
      ChunksFromLengthStep(images, m, x);
      if x + m < |images| {
        ChunksFromCount(images, m, x + m);
        CeilingStep(k, m, |images| - x);
      } else {
        assert k == 0;
        assert (k + 1) * m == m;
      }
    }
  }

  /** One chunk more than from the next slice on. */
  lemma ChunksFromLengthStep(images: seq<string>, m: nat, x: nat)
    requires m > 0 && x < |images|
    ensures |ChunksFrom(images, m, x)| == |ChunksFrom(images, m, x + m)| + 1
  {
    assert ChunksFrom(images, m, x) == [ImagesMessage(images[x..Min(x + m, |images|)])] + ChunksFrom(images, m, x + m);
  }

  /** If k chunks of m cover n - m, then k + 1 cover n. */
  lemma CeilingStep(k: int, m: int, n: int)
    requires (k - 1) * m < n - m <= k * m
    ensures k * m < n <= (k + 1) * m
  {
    assert k * m == (k - 1) * m + m;
    assert (k + 1) * m == k * m + m;
  }

  /**
   * `_images_to_messages`: with a positive chunk size the messages carry all
   * the images in order, in chunks of that size and a shorter last one; zero
   * raises; a negative size gives no messages.
   */
  lemma ImagesToMessagesSpec(images: seq<string>, m: int)
    ensures var r := ImagesToMessages(images, m);
      (r.Err? <==> m == 0) && (r.Err? ==> r.error == ZeroChunkSize) &&
      (m < 0 ==> r == Ok([])) &&
      (m > 0 ==>
        (r.Ok? && MessagesImages(r.value) == images &&
         (forall j :: 0 <= j < |r.value| ==> r.value[j] == ImagesMessage(PartImages(r.value[j].parts))) &&
         (forall j :: 0 <= j < |r.value| ==> 1 <= |PartImages(r.value[j].parts)| <= m) &&
         (forall j :: 0 <= j < |r.value| - 1 ==> |PartImages(r.value[j].parts)| == m) &&
         (|r.value| == 0 <==> images == []) &&
         (|r.value| > 0 ==> (|r.value| - 1) * m < |images| <= |r.value| * m)))
  {
    if m > 0 {
      ChunksFromImages(images, m, 0);
      ChunksFromSizes(images, m, 0);
      ChunksFromCount(images, m, 0);
      assert images[0..] == images;
    }
  }

  /** With the default chunk size, each message carries one to four images, all the images in order. */
  lemma ImagesToMessagesDefault(images: seq<string>)
    ensures var r := ImagesToMessages(images, MaxImagesPerMessage);
      r.Ok? && MessagesImages(r.value) == images &&
      (forall j :: 0 <= j < |r.value| ==> 1 <= |PartImages(r.value[j].parts)| <= 4) &&
      (forall j :: 0 <= j < |r.value| - 1 ==> |PartImages(r.value[j].parts)| == 4)
  {
    ImagesToMessagesSpec(images, MaxImagesPerMessage);
  }

  // ---------------------------------------------------------------------
  // Loading
  // ---------------------------------------------------------------------

  /** The JPEG entries of a directory listing, in sorted order. */
  function JpegNames(listing: seq<string>): seq<string> {
    Filter(Sort(listing), IsJpegPath)
  }

  /** The photos for the given directory entries, in order. */
  function Photos(dir: string, names: seq<string>): seq<Photo> {
    if names == [] then []
    else Photos(dir, names[..|names| - 1]) + [MakePhoto(Join(dir, names[|names| - 1]))]
  }

  /** One photo per entry, for the entry's path in the directory. */
  lemma {:induction false} PhotosAt(dir: string, names: seq<string>)
    ensures |Photos(dir, names)| == |names|
    ensures forall i :: 0 <= i < |names| ==> Photos(dir, names)[i].ImagePath() == Join(dir, names[i])
  {
    if names != [] {
      var init := names[..|names| - 1];
      var last := MakePhoto(Join(dir, names[|names| - 1]));
      PhotosAt(dir, init);
      MakePhotoPath(Join(dir, names[|names| - 1]));
      assert Photos(dir, names) == Photos(dir, init) + [last];
      forall i | 0 <= i < |names|
        ensures Photos(dir, names)[i].ImagePath() == Join(dir, names[i])
      {
        if i < |init| {
          assert Photos(dir, names)[i] == Photos(dir, init)[i];
          assert init[i] == names[i];
        }
      }
    }
  }

  /** What `_load_images(dir)` returns when `os.listdir(dir)` is `listing`. */
  function LoadedPhotos(dir: string, listing: seq<string>): seq<Photo> {
    Photos(dir, JpegNames(listing))
  }

  /** A listed JPEG name joined to its directory is still a JPEG path, so `from_jpg_path` accepts it. */
  lemma ListedJpegAccepted(dir: string, name: string)
    requires IsJpegPath(name)
    ensures FromJpgPath(Join(dir, name)) == Ok(MakePhoto(Join(dir, name)))
  {
    JoinEndsWith(dir, name);
    if EndsWith(name, ".jpeg") {
      EndsWithTransitive(Join(dir, name), name, ".jpeg");
    } else {
      EndsWithTransitive(Join(dir, name), name, ".jpg");
    }
  }

  /** Appending an entry appends its photo. */
  lemma PhotosSnoc(dir: string, names: seq<string>, name: string)
    ensures Photos(dir, names + [name]) == Photos(dir, names) + [MakePhoto(Join(dir, name))]
  {
    assert (names + [name])[..|names|] == names;
  }

  /** `_load_images`: walk the sorted listing, skipping entries that are not JPEG files. */
  method LoadImages(dir: string, listing: seq<string>) returns (images: seq<Photo>)
    ensures images == LoadedPhotos(dir, listing)
  {
    var names := Sort(listing);
    images := [];
    for k := 0 to |names|
      invariant images == Photos(dir, Filter(names[..k], IsJpegPath))
    {
      var name := names[k];
      ghost var kept := Filter(names[..k], IsJpegPath);
      assert names[..k + 1] == names[..k] + [name];
      FilterSnoc(names[..k], name, IsJpegPath);
      if !EndsWith(name, ".jpeg") && !EndsWith(name, ".jpg") {
        assert Filter(names[..k + 1], IsJpegPath) == kept;
        continue;
      }
      ListedJpegAccepted(dir, name);
      var image := FromJpgPath(Join(dir, name)).value;
      assert Filter(names[..k + 1], IsJpegPath) == kept + [name];
      PhotosSnoc(dir, kept, name);
      assert image == MakePhoto(Join(dir, name));
      images := images + [image];
    }
    assert names[..|names|] == names;
  }

  /**
   * The loaded photos follow the sorted listing: one per JPEG entry, as many
   * times as it is listed, none for any other entry, in ascending name order.
   */
  lemma JpegNamesOfListing(listing: seq<string>)
    ensures Sorted(JpegNames(listing))
    ensures forall name :: multiset(JpegNames(listing))[name] == if IsJpegPath(name) then multiset(listing)[name] else 0
    ensures forall i :: 0 <= i < |JpegNames(listing)| ==> IsJpegPath(JpegNames(listing)[i])
  {
    SortSorted(listing);
    SortPermutation(listing);
    FilterSorted(Sort(listing), IsJpegPath);
    FilterKeeps(Sort(listing), IsJpegPath);
    forall name {
      FilterCount(Sort(listing), IsJpegPath, name);
    }
  }

  // ---------------------------------------------------------------------
  // One transcription request
  // ---------------------------------------------------------------------

  const MaxPhotosPerConversation := 4

  /** The index of the first photo without a transcription, or `None` when all have one. */
  function FirstPending(images: seq<Photo>, fs: FileSystem): (r: Option<nat>)
    ensures r.None? <==> forall i :: 0 <= i < |images| ==> HasTranscription(images[i], fs)
    ensures r.Some? ==> r.value < |images| && !HasTranscription(images[r.value], fs)
    ensures r.Some? ==> forall j :: 0 <= j < r.value ==> HasTranscription(images[j], fs)
  {
    if images == [] then None
    else if !HasTranscription(images[0], fs) then Some(0)
    else
      match FirstPending(images[1..], fs)
      case None => None
      case Some(k) => Some(k + 1)
  }

  /** The first `k` photos, all transcribed, as alternating user and assistant messages. */
  function Pairs(images: seq<Photo>, fs: FileSystem, k: nat): seq<Message>
    requires k <= |images|
    requires forall j :: 0 <= j < k ==> HasTranscription(images[j], fs)
  {
    if k == 0 then []
    else Pairs(images, fs, k - 1) + [UserMessage(images[k - 1], fs)] + [AssistantMessage(images[k - 1], fs)]
  }

  /** Photo `j`'s request and answer sit at positions `2j` and `2j + 1`. */
  lemma {:induction false} PairsAt(images: seq<Photo>, fs: FileSystem, k: nat)
    requires k <= |images|
    requires forall j :: 0 <= j < k ==> HasTranscription(images[j], fs)
    ensures |Pairs(images, fs, k)| == 2 * k
    ensures forall j :: 0 <= j < k ==>
      Pairs(images, fs, k)[2 * j] == UserMessage(images[j], fs) &&
      Pairs(images, fs, k)[2 * j + 1] == AssistantMessage(images[j], fs)
  {
    if k > 0 {
      PairsAt(images, fs, k - 1);
      var prefix := Pairs(images, fs, k - 1);
      var r := Pairs(images, fs, k);
      assert forall j :: 0 <= j < k - 1 ==> r[2 * j] == prefix[2 * j] && r[2 * j + 1] == prefix[2 * j + 1];
    }
  }

  /** Python's `s[start:]`: a negative start counts from the end and is clamped at 0. */
  function PySliceFrom<T>(s: seq<T>, start: int): seq<T> {
    if start >= 0 then (if start <= |s| then s[start..] else [])
    else if |s| + start >= 0 then s[|s| + start..]
    else s
  }

  /**
   * `s[len(s) - 4:]` keeps the last four elements; of three it keeps the
   * last one only (the start -1 counts from the end); fewer are kept whole.
   */
  lemma LastFour<T>(s: seq<T>)
    ensures PySliceFrom(s, |s| - 4) == if |s| >= 4 then s[|s| - 4..] else if |s| == 3 then s[2..] else s
  {
  }

  /** The messages `_transcribe_images` accumulates for the first `k` photos, all transcribed, and photo `k`. */
  function Accumulated(images: seq<Photo>, fs: FileSystem, k: nat): seq<Message>
    requires k < |images|
    requires forall j :: 0 <= j < k ==> HasTranscription(images[j], fs)
  {
    Pairs(images, fs, k) + [UserMessage(images[k], fs)]
  }

  /**
   * `user_messages[len(user_messages) - 4:]` on the accumulated list: the
   * target's request preceded by at most three messages of the work already
   * done. For k transcribed photos before the target the list has 2k + 1
   * messages, so with k = 1 the slice keeps only the target's request.
   */
  lemma AccumulatedWindow(images: seq<Photo>, fs: FileSystem, k: nat)
    requires k < |images|
    requires forall j :: 0 <= j < k ==> HasTranscription(images[j], fs)
    ensures |Accumulated(images, fs, k)| == 2 * k + 1
    ensures PySliceFrom(Accumulated(images, fs, k), |Accumulated(images, fs, k)| - MaxPhotosPerConversation) ==
      if k >= 2 then
        [AssistantMessage(images[k - 2], fs), UserMessage(images[k - 1], fs),
         AssistantMessage(images[k - 1], fs), UserMessage(images[k], fs)]
      else [UserMessage(images[k], fs)]
  {
    var pairs := Pairs(images, fs, k);
    var acc := Accumulated(images, fs, k);
    PairsAt(images, fs, k);
    LastFour(acc);
    if k >= 2 {
      assert acc[2 * k - 3] == pairs[2 * (k - 2) + 1];
      assert acc[2 * k - 2] == pairs[2 * (k - 1)];
      assert acc[2 * k - 1] == pairs[2 * (k - 1) + 1];
      assert acc[|acc| - 4..] == [acc[2 * k - 3], acc[2 * k - 2], acc[2 * k - 1], acc[2 * k]];
    } else if k == 1 {
      assert acc[2..] == [UserMessage(images[k], fs)];
    }
  }

  /** A request and the model's answer to it. */
  datatype Exchange = Exchange(sent: seq<Message>, response: string, target: Photo)

  /** `_transcribe_images` as a function of the file system and the model's answer `respond(sent)`. */
  function NextExchange(systemImages: seq<Photo>, userImages: seq<Photo>, fs: FileSystem,
                        respond: seq<Message> -> string): Result<Exchange, Error>
  {
    match MakeSystemMessages(systemImages, fs)
    case Err(e) => Err(e)
    case Ok(system) =>
      match FirstPending(userImages, fs)
      case None => Err(AllTranscribed)
      case Some(k) =>
        var acc := Accumulated(userImages, fs, k);
        var sent := system + PySliceFrom(acc, |acc| - MaxPhotosPerConversation);
        Ok(Exchange(sent, respond(sent), userImages[k]))
  }

  /**
   * The outcome of one request: the missing-annotation error when a reference
   * photo lacks a usable annotation, otherwise the all-transcribed error when
   * every work photo has a transcription, otherwise the model's answer for the
   * first work photo without one.
   */
  lemma NextExchangeOutcome(systemImages: seq<Photo>, userImages: seq<Photo>, fs: FileSystem, respond: seq<Message> -> string)
    ensures var r := NextExchange(systemImages, userImages, fs, respond);
      (r == Err(MissingAnnotation) <==> exists i :: 0 <= i < |systemImages| && !HasUsableAnnotation(systemImages[i], fs)) &&
      (r == Err(AllTranscribed) <==>
        (forall i :: 0 <= i < |systemImages| ==> HasUsableAnnotation(systemImages[i], fs)) &&
        (forall i :: 0 <= i < |userImages| ==> HasTranscription(userImages[i], fs))) &&
      (r.Err? ==> r == Err(MissingAnnotation) || r == Err(AllTranscribed)) &&
      (r.Ok? ==> FirstPending(userImages, fs).Some? && r.value.target == userImages[FirstPending(userImages, fs).value] &&
                 !HasTranscription(r.value.target, fs) && r.value.response == respond(r.value.sent))
  {
    SystemMessagesSpec(systemImages, fs);
  }

  /**
   * What is sent: the system messages whole, then the target's request preceded
   * by at most three messages of the work already done (see `AccumulatedWindow`).
   */
  lemma ExchangeWindow(systemImages: seq<Photo>, userImages: seq<Photo>, fs: FileSystem, respond: seq<Message> -> string)
    requires NextExchange(systemImages, userImages, fs, respond).Ok?
    ensures var k := FirstPending(userImages, fs).value;
      NextExchange(systemImages, userImages, fs, respond).value.sent ==
        MakeSystemMessages(systemImages, fs).value +
        if k >= 2 then
          [AssistantMessage(userImages[k - 2], fs), UserMessage(userImages[k - 1], fs),
           AssistantMessage(userImages[k - 1], fs), UserMessage(userImages[k], fs)]
        else [UserMessage(userImages[k], fs)]
  {
    var k := FirstPending(userImages, fs).value;
    NextExchangeFor(systemImages, userImages, fs, respond, MakeSystemMessages(systemImages, fs).value, k);
    AccumulatedWindow(userImages, fs, k);
  }

  /** Photo `k` is the first without a transcription. */
  lemma FirstPendingIs(images: seq<Photo>, fs: FileSystem, k: nat)
    requires k < |images| && !HasTranscription(images[k], fs)
    requires forall j :: 0 <= j < k ==> HasTranscription(images[j], fs)
    ensures FirstPending(images, fs) == Some(k)
  {
  }

  /** The request for photo `k`, the first without a transcription. */
  lemma NextExchangeFor(systemImages: seq<Photo>, userImages: seq<Photo>, fs: FileSystem,
                        respond: seq<Message> -> string, system: seq<Message>, k: nat)
    requires MakeSystemMessages(systemImages, fs) == Ok(system)
    requires k < |userImages| && !HasTranscription(userImages[k], fs)
    requires forall j :: 0 <= j < k ==> HasTranscription(userImages[j], fs)
    ensures var acc := Accumulated(userImages, fs, k);
      var sent := system + PySliceFrom(acc, |acc| - MaxPhotosPerConversation);
      NextExchange(systemImages, userImages, fs, respond) == Ok(Exchange(sent, respond(sent), userImages[k]))
  {
    FirstPendingIs(userImages, fs, k);
  }

  /** With every work photo transcribed, the request is refused. */
  lemma NextExchangeAllDone(systemImages: seq<Photo>, userImages: seq<Photo>, fs: FileSystem,
                            respond: seq<Message> -> string)
    requires MakeSystemMessages(systemImages, fs).Ok?
    requires forall j :: 0 <= j < |userImages| ==> HasTranscription(userImages[j], fs)
    ensures NextExchange(systemImages, userImages, fs, respond) == Err(AllTranscribed)
  {
  }

  /** A reference photo without a usable annotation stops the request before any work photo is looked at. */
  lemma NextExchangeSystemError(systemImages: seq<Photo>, userImages: seq<Photo>, fs: FileSystem,
                                respond: seq<Message> -> string)
    requires MakeSystemMessages(systemImages, fs).Err?
    ensures MakeSystemMessages(systemImages, fs).error == MissingAnnotation
    ensures NextExchange(systemImages, userImages, fs, respond) == Err(MissingAnnotation)
  {
    SystemMessagesSpec(systemImages, fs);
  }

  /** `_transcribe_images`: build the system messages, walk the work photos up to the first untranscribed one, send. */
  method TranscribeImages(systemImages: seq<Photo>, userImages: seq<Photo>, fs: FileSystem,
                          respond: seq<Message> -> string) returns (r: Result<Exchange, Error>)
    ensures r == NextExchange(systemImages, userImages, fs, respond)
  {
    var messages := MakeSystemMessages(systemImages, fs);
    if messages.Err? {
      NextExchangeSystemError(systemImages, userImages, fs, respond);
      return Err(messages.error);
    }
    var userMessages: seq<Message> := [];
    var lastImage: Option<Photo> := None;
    ghost var target := |userImages|;
    for i := 0 to |userImages|
      invariant lastImage.None?
      invariant forall j :: 0 <= j < i ==> HasTranscription(userImages[j], fs)
      invariant userMessages == Pairs(userImages, fs, i)
    {
      var image := userImages[i];
      userMessages := userMessages + [UserMessage(image, fs)];
      if HasTranscription(image, fs) {
        userMessages := userMessages + [AssistantMessage(image, fs)];
      } else {
        lastImage := Some(image);
        target := i;
        break;
      }
    }
    if lastImage.None? {
      NextExchangeAllDone(systemImages, userImages, fs, respond);
      return Err(AllTranscribed);
    }
    assert userMessages == Accumulated(userImages, fs, target);
    var sent := messages.value + PySliceFrom(userMessages, |userMessages| - MaxPhotosPerConversation);
    NextExchangeFor(systemImages, userImages, fs, respond, messages.value, target);
    return Ok(Exchange(sent, respond(sent), lastImage.value));
  }

  // ---------------------------------------------------------------------
  // The main loop
  // ---------------------------------------------------------------------

  /** The file system after saving the answer of each exchange of `log`, in order. */
  function Replay(fs0: FileSystem, log: seq<Exchange>): FileSystem
    decreases |log|
  {
    if log == [] then fs0
    else
      var e := log[|log| - 1];
      SaveTranscription(e.target, e.response, Replay(fs0, log[..|log| - 1]))
  }

  /**
   * `log` is a run of the loop of `main` from `fs0`: each exchange is the
   * request `_transcribe_images` makes once the answers before it are saved.
   */
  predicate IsRun(systemImages: seq<Photo>, userImages: seq<Photo>, fs0: FileSystem,
                  respond: seq<Message> -> string, log: seq<Exchange>)
    decreases |log|
  {
    log == [] ||
    (IsRun(systemImages, userImages, fs0, respond, log[..|log| - 1]) &&
     NextExchange(systemImages, userImages, Replay(fs0, log[..|log| - 1]), respond) == Ok(log[|log| - 1]))
  }

  /** The transcription files still to be written: one per distinct path of an untranscribed photo. */
  function PendingPaths(images: seq<Photo>, fs: FileSystem): set<string> {
    set i | 0 <= i < |images| && !HasTranscription(images[i], fs) :: TranscriptionPath(images[i])
  }

  /** The number of untranscribed photos. */
  function CountPending(images: seq<Photo>, fs: FileSystem): nat {
    if images == [] then 0
    else CountPending(images[..|images| - 1], fs) + if HasTranscription(images[|images| - 1], fs) then 0 else 1
  }

  /** No two photos share a transcription file. */
  predicate TranscriptionPathsDistinct(images: seq<Photo>) {
    forall i, j :: 0 <= i < j < |images| ==> TranscriptionPath(images[i]) != TranscriptionPath(images[j])
  }

  /** Saving the answer for a pending photo removes exactly its transcription path from the pending set. */
  lemma SavePending(images: seq<Photo>, fs: FileSystem, k: nat, text: string)
    requires k < |images| && !HasTranscription(images[k], fs)
    ensures TranscriptionPath(images[k]) in PendingPaths(images, fs)
    ensures PendingPaths(images, SaveTranscription(images[k], text, fs)) == PendingPaths(images, fs) - {TranscriptionPath(images[k])}
    ensures |PendingPaths(images, SaveTranscription(images[k], text, fs))| == |PendingPaths(images, fs)| - 1
  {
    var fs' := SaveTranscription(images[k], text, fs);
    var path := TranscriptionPath(images[k]);
    forall x | x in PendingPaths(images, fs) - {path}
      ensures x in PendingPaths(images, fs')
    {
      var i :| 0 <= i < |images| && !HasTranscription(images[i], fs) && x == TranscriptionPath(images[i]);
      assert !HasTranscription(images[i], fs');
    }
  }

  /** With distinct transcription paths, saving the answer for photo k marks it and no other photo as transcribed. */
  lemma SaveMarksOnlyTarget(images: seq<Photo>, fs: FileSystem, k: nat, text: string)
    requires k < |images| && TranscriptionPathsDistinct(images)
    ensures HasTranscription(images[k], SaveTranscription(images[k], text, fs))
    ensures forall j :: 0 <= j < |images| && j != k ==>
      HasTranscription(images[j], SaveTranscription(images[k], text, fs)) == HasTranscription(images[j], fs)
  {
  }

  /** The pending paths of a sequence with one more photo. */
  lemma PendingPathsSnoc(images: seq<Photo>, fs: FileSystem)
    requires images != []
    ensures var last := images[|images| - 1];
      PendingPaths(images, fs) ==
        PendingPaths(images[..|images| - 1], fs) + if HasTranscription(last, fs) then {} else {TranscriptionPath(last)}
  {
    var n := |images| - 1;
    var init := images[..n];
    forall i | 0 <= i < n
      ensures init[i] == images[i]
    {
    }
  }

  /** Distinct pending photos never outnumber the untranscribed photos, and match them when paths are distinct. */
  lemma {:induction false} PendingPathsCount(images: seq<Photo>, fs: FileSystem)
    ensures |PendingPaths(images, fs)| <= CountPending(images, fs)
    ensures TranscriptionPathsDistinct(images) ==> |PendingPaths(images, fs)| == CountPending(images, fs)
  {
    if images != [] {
      var n := |images| - 1;
      var init := images[..n];
      var last := images[n];
      PendingPathsCount(init, fs);
      PendingPathsSnoc(images, fs);
      if TranscriptionPathsDistinct(images) {
        assert TranscriptionPathsDistinct(init) by {
          forall i, j | 0 <= i < j < n
            ensures TranscriptionPath(init[i]) != TranscriptionPath(init[j])
          {
            assert init[i] == images[i] && init[j] == images[j];
          }
        }
        assert TranscriptionPath(last) !in PendingPaths(init, fs) by {
          forall i | 0 <= i < n
            ensures TranscriptionPath(init[i]) != TranscriptionPath(last)
          {
            assert init[i] == images[i];
          }
        }
      }
    }
  }

  /** One more pass of the loop of `main`: the request is made on the saved answers so far, and its answer is saved. */
  lemma IsRunSnoc(systemImages: seq<Photo>, userImages: seq<Photo>, fs0: FileSystem,
                  respond: seq<Message> -> string, log: seq<Exchange>, e: Exchange)
    requires IsRun(systemImages, userImages, fs0, respond, log)
    requires NextExchange(systemImages, userImages, Replay(fs0, log), respond) == Ok(e)
    ensures IsRun(systemImages, userImages, fs0, respond, log + [e])
    ensures Replay(fs0, log + [e]) == SaveTranscription(e.target, e.response, Replay(fs0, log))
  {
    var log' := log + [e];
    assert log'[..|log'| - 1] == log && log'[|log'| - 1] == e;
  }

  /** Saving the answer of a request removes its target's transcription file from the pending set. */
  lemma NextExchangeProgress(systemImages: seq<Photo>, userImages: seq<Photo>, fs: FileSystem,
                             respond: seq<Message> -> string, e: Exchange)
    requires NextExchange(systemImages, userImages, fs, respond) == Ok(e)
    ensures |PendingPaths(userImages, SaveTranscription(e.target, e.response, fs))| == |PendingPaths(userImages, fs)| - 1
  {
    NextExchangeOutcome(systemImages, userImages, fs, respond);
    SavePending(userImages, fs, FirstPending(userImages, fs).value, e.response);
  }

  /** The transcription files a run writes, one per request. */
  function SavedPaths(log: seq<Exchange>): set<string> {
    set i | 0 <= i < |log| :: TranscriptionPath(log[i].target)
  }

  /** Every pass of a run removes one transcription file from the pending set: the passes never outnumber it. */
  lemma {:induction false} RunProgress(systemImages: seq<Photo>, userImages: seq<Photo>, fs0: FileSystem,
                                       respond: seq<Message> -> string, log: seq<Exchange>)
    requires IsRun(systemImages, userImages, fs0, respond, log)
    ensures |log| + |PendingPaths(userImages, Replay(fs0, log))| == |PendingPaths(userImages, fs0)|
    decreases |log|
  {
    if log != [] {
      var init := log[..|log| - 1];
      RunProgress(systemImages, userImages, fs0, respond, init);
      NextExchangeProgress(systemImages, userImages, Replay(fs0, init), respond, log[|log| - 1]);
    }
  }

  /** The last pass of a run wrote its answer to the new transcription file of a work photo. */
  lemma RunLast(systemImages: seq<Photo>, userImages: seq<Photo>, fs0: FileSystem,
                respond: seq<Message> -> string, log: seq<Exchange>)
    requires IsRun(systemImages, userImages, fs0, respond, log) && log != []
    ensures IsRun(systemImages, userImages, fs0, respond, log[..|log| - 1])
    ensures var e, fs := log[|log| - 1], Replay(fs0, log[..|log| - 1]);
      e.target in userImages && TranscriptionPath(e.target) !in fs &&
      Replay(fs0, log) == fs[TranscriptionPath(e.target) := e.response]
  {
    NextExchangeOutcome(systemImages, userImages, Replay(fs0, log[..|log| - 1]), respond);
  }

  /** Each exchange of `log` saves to a transcription file of a work photo that did not exist before it. */
  predicate SavesNewFiles(userImages: seq<Photo>, fs0: FileSystem, log: seq<Exchange>)
    decreases |log|
  {
    log == [] ||
    (SavesNewFiles(userImages, fs0, log[..|log| - 1]) &&
     log[|log| - 1].target in userImages &&
     TranscriptionPath(log[|log| - 1].target) !in Replay(fs0, log[..|log| - 1]))
  }

  /** A run only ever writes new transcription files of work photos. */
  lemma {:induction false} RunSavesNewFiles(systemImages: seq<Photo>, userImages: seq<Photo>, fs0: FileSystem,
                                            respond: seq<Message> -> string, log: seq<Exchange>)
    requires IsRun(systemImages, userImages, fs0, respond, log)
    ensures SavesNewFiles(userImages, fs0, log)
    decreases |log|
  {
    if log != [] {
      RunLast(systemImages, userImages, fs0, respond, log);
      RunSavesNewFiles(systemImages, userImages, fs0, respond, log[..|log| - 1]);
    }
  }

  /** Writing only new files keeps the files present at the start and adds exactly the written ones. */
  lemma {:induction false} NewFilesKept(userImages: seq<Photo>, fs0: FileSystem, log: seq<Exchange>)
    requires SavesNewFiles(userImages, fs0, log)
    ensures Replay(fs0, log).Keys == fs0.Keys + SavedPaths(log)
    ensures forall path :: path in fs0 ==> Replay(fs0, log)[path] == fs0[path]
    decreases |log|
  {
    if log != [] {
      var n := |log| - 1;
      var init := log[..n];
      NewFilesKept(userImages, fs0, init);
      assert forall i :: 0 <= i < n ==> log[i] == init[i];
      assert SavedPaths(log) == SavedPaths(init) + {TranscriptionPath(log[n].target)};
    }
  }

  /** Writing only new files gives a different file to each exchange, none present at the start, holding its answer. */
  lemma {:induction false} NewFilesAnswers(userImages: seq<Photo>, fs0: FileSystem, log: seq<Exchange>)
    requires SavesNewFiles(userImages, fs0, log)
    ensures forall i :: 0 <= i < |log| ==>
      log[i].target in userImages && TranscriptionPath(log[i].target) !in fs0 &&
      TranscriptionPath(log[i].target) in Replay(fs0, log) &&
      Replay(fs0, log)[TranscriptionPath(log[i].target)] == log[i].response
    ensures forall i, j :: 0 <= i < j < |log| ==> TranscriptionPath(log[i].target) != TranscriptionPath(log[j].target)
    decreases |log|
  {
    if log != [] {
      var n := |log| - 1;
      var init, e := log[..n], log[n];
      var path := TranscriptionPath(e.target);
      NewFilesAnswers(userImages, fs0, init);
      NewFilesKept(userImages, fs0, init);
      forall i | 0 <= i < n
        ensures log[i] == init[i] && TranscriptionPath(log[i].target) != path
      {
        assert TranscriptionPath(init[i].target) in Replay(fs0, init);
      }
    }
  }

  /** A run only adds files: those present at the start keep their content, and the new ones are its transcription files. */
  lemma RunKeepsFiles(systemImages: seq<Photo>, userImages: seq<Photo>, fs0: FileSystem,
                      respond: seq<Message> -> string, log: seq<Exchange>)
    requires IsRun(systemImages, userImages, fs0, respond, log)
    ensures Replay(fs0, log).Keys == fs0.Keys + SavedPaths(log)
    ensures forall path :: path in fs0 ==> Replay(fs0, log)[path] == fs0[path]
  {
    RunSavesNewFiles(systemImages, userImages, fs0, respond, log);
    NewFilesKept(userImages, fs0, log);
  }

  /**
   * Each request of a run is for a work photo that had no transcription file
   * at the start, a different file for each request, and its answer is what
   * that file holds at the end.
   */
  lemma RunSavesAnswers(systemImages: seq<Photo>, userImages: seq<Photo>, fs0: FileSystem,
                        respond: seq<Message> -> string, log: seq<Exchange>)
    requires IsRun(systemImages, userImages, fs0, respond, log)
    ensures forall i :: 0 <= i < |log| ==>
      log[i].target in userImages && TranscriptionPath(log[i].target) !in fs0 &&
      TranscriptionPath(log[i].target) in Replay(fs0, log) &&
      Replay(fs0, log)[TranscriptionPath(log[i].target)] == log[i].response
    ensures forall i, j :: 0 <= i < j < |log| ==> TranscriptionPath(log[i].target) != TranscriptionPath(log[j].target)
  {
    RunSavesNewFiles(systemImages, userImages, fs0, respond, log);
    NewFilesAnswers(userImages, fs0, log);
  }

  /** Every prefix of a run is a run. */
  lemma {:induction false} IsRunPrefix(systemImages: seq<Photo>, userImages: seq<Photo>, fs0: FileSystem,
                                       respond: seq<Message> -> string, log: seq<Exchange>, n: nat)
    requires IsRun(systemImages, userImages, fs0, respond, log) && n <= |log|
    ensures IsRun(systemImages, userImages, fs0, respond, log[..n])
    decreases |log|
  {
    if n == |log| {
      assert log[..n] == log;
    } else {
      assert log[..|log| - 1][..n] == log[..n];
      IsRunPrefix(systemImages, userImages, fs0, respond, log[..|log| - 1], n);
    }
  }

  /** The files present after a prefix of the log are still present after the whole log. */
  lemma {:induction false} ReplayGrows(fs0: FileSystem, log: seq<Exchange>, n: nat)
    requires n <= |log|
    ensures Replay(fs0, log[..n]).Keys <= Replay(fs0, log).Keys
    decreases |log|
  {
    if n == |log| {
      assert log[..n] == log;
    } else {
      assert log[..|log| - 1][..n] == log[..n];
      ReplayGrows(fs0, log[..|log| - 1], n);
    }
  }

  /** The index of the work photo that pass `i` of a log is for: the first without a transcription when it is made. */
  function PassIndex(userImages: seq<Photo>, fs0: FileSystem, log: seq<Exchange>, i: nat): int
    requires i < |log|
  {
    match FirstPending(userImages, Replay(fs0, log[..i]))
    case Some(k) => k
    case None => -1
  }

  /** Pass `i` of a run is for photo PassIndex(i), and after it that photo and every one before it is transcribed. */
  lemma RunPassTranscribes(systemImages: seq<Photo>, userImages: seq<Photo>, fs0: FileSystem,
                           respond: seq<Message> -> string, log: seq<Exchange>, i: nat)
    requires IsRun(systemImages, userImages, fs0, respond, log) && i < |log|
    ensures 0 <= PassIndex(userImages, fs0, log, i) < |userImages|
    ensures log[i].target == userImages[PassIndex(userImages, fs0, log, i)]
    ensures forall j :: 0 <= j <= PassIndex(userImages, fs0, log, i) ==>
      HasTranscription(userImages[j], Replay(fs0, log[..i + 1]))
  {
    RunPass(systemImages, userImages, fs0, respond, log, i);
    PassTranscribes(systemImages, userImages, Replay(fs0, log[..i]), respond, log[i]);
  }

  /** Pass `i` of a run is the request made on the files of the passes before it, and its answer is saved. */
  lemma RunPass(systemImages: seq<Photo>, userImages: seq<Photo>, fs0: FileSystem,
                respond: seq<Message> -> string, log: seq<Exchange>, i: nat)
    requires IsRun(systemImages, userImages, fs0, respond, log) && i < |log|
    ensures NextExchange(systemImages, userImages, Replay(fs0, log[..i]), respond) == Ok(log[i])
    ensures Replay(fs0, log[..i + 1]) == SaveTranscription(log[i].target, log[i].response, Replay(fs0, log[..i]))
  {
    IsRunPrefix(systemImages, userImages, fs0, respond, log, i + 1);
    var pre := log[..i + 1];
    assert pre[..|pre| - 1] == log[..i] && pre[|pre| - 1] == log[i];
  }

  /** After saving the answer of a request, its target and every work photo before it are transcribed. */
  lemma PassTranscribes(systemImages: seq<Photo>, userImages: seq<Photo>, fs: FileSystem,
                        respond: seq<Message> -> string, e: Exchange)
    requires NextExchange(systemImages, userImages, fs, respond) == Ok(e)
    ensures FirstPending(userImages, fs).Some?
    ensures e.target == userImages[FirstPending(userImages, fs).value]
    ensures forall j :: 0 <= j <= FirstPending(userImages, fs).value ==>
      HasTranscription(userImages[j], SaveTranscription(e.target, e.response, fs))
  {
    NextExchangeOutcome(systemImages, userImages, fs, respond);
  }

  /** A later pass of a run is for a later work photo. */
  lemma RunPassesOrdered(systemImages: seq<Photo>, userImages: seq<Photo>, fs0: FileSystem,
                         respond: seq<Message> -> string, log: seq<Exchange>, i: nat, j: nat)
    requires IsRun(systemImages, userImages, fs0, respond, log) && i < j < |log|
    ensures PassIndex(userImages, fs0, log, i) < PassIndex(userImages, fs0, log, j)
  {
    RunPassTranscribes(systemImages, userImages, fs0, respond, log, i);
    RunPassTranscribes(systemImages, userImages, fs0, respond, log, j);
    ReplayGrows(fs0, log[..j], i + 1);
    assert log[..j][..i + 1] == log[..i + 1];
    var kj := PassIndex(userImages, fs0, log, j);
    assert !HasTranscription(userImages[kj], Replay(fs0, log[..j]));
  }

  /**
   * A run processes the work photos in their loaded (sorted) order: pass `i`
   * is for photo PassIndex(i), and the indices strictly increase from pass to
   * pass, so a restarted run picks up the untranscribed photos in order.
   */
  lemma RunInOrder(systemImages: seq<Photo>, userImages: seq<Photo>, fs0: FileSystem,
                   respond: seq<Message> -> string, log: seq<Exchange>)
    requires IsRun(systemImages, userImages, fs0, respond, log)
    ensures forall i :: 0 <= i < |log| ==>
      0 <= PassIndex(userImages, fs0, log, i) < |userImages| && log[i].target == userImages[PassIndex(userImages, fs0, log, i)]
    ensures forall i, j :: 0 <= i < j < |log| ==> PassIndex(userImages, fs0, log, i) < PassIndex(userImages, fs0, log, j)
  {
    forall i | 0 <= i < |log|
      ensures 0 <= PassIndex(userImages, fs0, log, i) < |userImages| && log[i].target == userImages[PassIndex(userImages, fs0, log, i)]
    {
      RunPassTranscribes(systemImages, userImages, fs0, respond, log, i);
    }
    forall i, j | 0 <= i < j < |log|
      ensures PassIndex(userImages, fs0, log, i) < PassIndex(userImages, fs0, log, j)
    {
      RunPassesOrdered(systemImages, userImages, fs0, respond, log, i, j);
    }
  }

  /**
   * A run that ends with "All images have been transcribed" has transcribed
   * every work photo, in exactly one pass per pending transcription file: one
   * per untranscribed photo when the photos' files are distinct.
   */
  lemma RunEndsAllTranscribed(systemImages: seq<Photo>, userImages: seq<Photo>, fs0: FileSystem,
                              respond: seq<Message> -> string, log: seq<Exchange>)
    requires IsRun(systemImages, userImages, fs0, respond, log)
    requires NextExchange(systemImages, userImages, Replay(fs0, log), respond) == Err(AllTranscribed)
    ensures forall i :: 0 <= i < |userImages| ==> HasTranscription(userImages[i], Replay(fs0, log))
    ensures |log| == |PendingPaths(userImages, fs0)|
    ensures TranscriptionPathsDistinct(userImages) ==> |log| == CountPending(userImages, fs0)
  {
    NextExchangeOutcome(systemImages, userImages, Replay(fs0, log), respond);
    assert PendingPaths(userImages, Replay(fs0, log)) == {};
    RunProgress(systemImages, userImages, fs0, respond, log);
    PendingPathsCount(userImages, fs0);
  }

  /**
   * When every reference photo has a usable annotation at the start, a run
   * can only stop with "All images have been transcribed", after one pass per
   * file pending at the start: its own writes never touch an annotation.
   */
  lemma RunEndsWithUsableReferences(systemImages: seq<Photo>, userImages: seq<Photo>, fs0: FileSystem,
                                    respond: seq<Message> -> string, log: seq<Exchange>)
    requires IsRun(systemImages, userImages, fs0, respond, log) && MakeSystemMessages(systemImages, fs0).Ok?
    requires NextExchange(systemImages, userImages, Replay(fs0, log), respond).Err?
    ensures NextExchange(systemImages, userImages, Replay(fs0, log), respond) == Err(AllTranscribed)
    ensures |log| == |PendingPaths(userImages, fs0)|
  {
    var fs := Replay(fs0, log);
    SystemMessagesSpec(systemImages, fs0);
    RunKeepsFiles(systemImages, userImages, fs0, respond, log);
    forall i | 0 <= i < |systemImages|
      ensures HasUsableAnnotation(systemImages[i], fs)
    {
      assert HasUsableAnnotation(systemImages[i], fs0);
    }
    NextExchangeOutcome(systemImages, userImages, fs, respond);
    RunEndsAllTranscribed(systemImages, userImages, fs0, respond, log);
  }

  /**
   * `main`: load both directories once, then transcribe and save until
   * `_transcribe_images` raises; the raised error ends the run and is returned
   * with the final files and the requests made.
   */
  method Run(systemDir: string, systemListing: seq<string>, userDir: string, userListing: seq<string>,
             fs0: FileSystem, respond: seq<Message> -> string)
    returns (fs: FileSystem, log: seq<Exchange>, err: Error)
    ensures IsRun(LoadedPhotos(systemDir, systemListing), LoadedPhotos(userDir, userListing), fs0, respond, log)
    ensures fs == Replay(fs0, log)
    ensures NextExchange(LoadedPhotos(systemDir, systemListing), LoadedPhotos(userDir, userListing), fs, respond) == Err(err)
    ensures MakeSystemMessages(LoadedPhotos(systemDir, systemListing), fs0).Ok? ==>
      err == AllTranscribed && |log| == |PendingPaths(LoadedPhotos(userDir, userListing), fs0)|
  {
    var systemImages := LoadImages(systemDir, systemListing);
    var userImages := LoadImages(userDir, userListing);
    fs, log := fs0, [];
    while true
      invariant IsRun(systemImages, userImages, fs0, respond, log)
      invariant fs == Replay(fs0, log)
      decreases |PendingPaths(userImages, fs)|
    {
      var r := TranscribeImages(systemImages, userImages, fs, respond);
      if r.Err? {
        err := r.error;
        if MakeSystemMessages(systemImages, fs0).Ok? {
          RunEndsWithUsableReferences(systemImages, userImages, fs0, respond, log);
        }
        return;
      }
      var e := r.value;
      NextExchangeProgress(systemImages, userImages, fs, respond, e);
      IsRunSnoc(systemImages, userImages, fs0, respond, log, e);
      fs, log := SaveTranscription(e.target, e.response, fs), log + [e];
    }
  }
}
