/**
  The decisions the request handlers make: which flash message or JSON reply
  they give, where they redirect, and which project-metadata fields they record.
  The collaborators (the APK editor, the file manager, the file system and the
  clock) appear as parameters holding what they returned.
 */
module Routes {
  import opened Wrappers
  import opened Text
  import opened GuiCompiler
  import opened GuiPatch

  /** A metadata value: text (timestamps, statuses, paths), a flag or a byte count. */
  datatype Value = Str(s: string) | Bool(b: bool) | Int(n: int)

  type Metadata = map<string, Value>

  /** The page a handler redirects to. */
  datatype Page = Index | ProjectView | EditResource | DownloadApk

  /** The two flash categories the handlers use, "success" and "error". */
  datatype Category = Succeeded | Failed

  /** A flashed message with its category. */
  datatype Flash = Flash(category: Category, message: string)

  /** What a redirecting handler decides: the metadata fields to merge, if any, the
      message to flash, if any, and the page to go to. */
  datatype Outcome = Outcome(update: Option<Metadata>, flash: Option<Flash>, target: Page)

  // ---------------------------------------------------------------------------
  // The texts the handlers show

  const ImageSaved := "Image updated and saved successfully!"
  const ImageNotSaved := "Failed to update image"
  const StringSaved := "String updated and saved successfully!"
  const StringNotSaved := "Failed to update string"
  const LayoutPreview := "XML Layout Modified"
  const LayoutSaved := "Layout updated and saved successfully!"
  const LayoutNotSaved := "Failed to update layout"
  const ProjectNotFound := "Project not found"
  const NoApkOutput := "Failed to compile APK. Check if all required resources are present."
  const ApkNotFound := "APK compilation failed - output file not found"
  const ApkTooSmall := "APK compilation produced invalid file. Please try again."
  const CompiledAndSigned := "APK compiled and signed successfully! Ready for installation."
  const CompiledOnly := "APK compiled successfully!"
  const NoCompiledApk := "No compiled APK found. Please compile first."
  const ApkSigned := "APK signed successfully!"
  const SignFailed := "Failed to sign APK"
  const NoGuiChanges := "Please describe the GUI changes you want"
  const GuiApplied := "GUI modifications applied successfully!"

  /** `update_project_metadata`: the fields are merged over the existing ones. */
  function Commit(meta: Metadata, update: Option<Metadata>): (r: Metadata)
    ensures update.None? ==> r == meta
    ensures update.Some? ==> r.Keys == meta.Keys + update.value.Keys
    ensures update.Some? ==> forall k :: k in update.value ==> r[k] == update.value[k]
    ensures update.Some? ==> forall k :: k in meta && k !in update.value ==> r[k] == meta[k]
  {
    match update
    case None => meta
    case Some(u) => meta + u
  }

  // ---------------------------------------------------------------------------
  // save_resource

  const PreviewLimit := 50

  /** The stored preview of edited text: the first 50 characters and "..." when longer. */
  function Preview(content: string): (r: string)
    ensures |content| <= PreviewLimit ==> r == content
    ensures |content| > PreviewLimit ==> |r| == PreviewLimit + 3 && EndsWith(r, "...")
    ensures StartsWith(r, content[..if |content| <= PreviewLimit then |content| else PreviewLimit])
  {
    if |content| > PreviewLimit then
      assert (content[..PreviewLimit] + "...")[..PreviewLimit] == content[..PreviewLimit];
      assert (content[..PreviewLimit] + "...")[PreviewLimit..] == "...";
      content[..PreviewLimit] + "..."
    else
      assert content[..|content|] == content;
      content
  }

  /** The fields recorded after a successful edit. */
  function EditRecord(now: string, path: string, kind: string): Metadata {
    map["last_modified" := Str(now), "status" := Str("modified"),
        "last_resource_edited" := Str(path), "last_edit_type" := Str(kind)]
  }

  /** `save_resource`. Metadata is recorded exactly when a known resource kind was saved
      (for an image, only when a non-empty file was uploaded); it then marks the project
      modified, names the resource and its kind, and previews text edits. `upload` is the file name of the `image_file` part when there is
      one; `saved` is what the editor's save call returned (not consulted when no call
      is made). Every branch redirects back to the editor. */
  function SaveResource(kind: string, upload: Option<string>, content: string,
                        saved: bool, path: string, now: string): (o: Outcome)
    ensures o.target == EditResource
    ensures o.update.Some? <==> saved && (kind == "string" || kind == "layout" ||
                                          (kind == "image" && upload.Some? && upload.value != ""))
    ensures o.update.Some? ==>
      && o.update.value.Keys == {"last_modified", "status", "last_resource_edited", "last_edit_type"}
                                + (if kind == "image" then {} else {"last_content_preview"})
      && o.update.value["status"] == Str("modified")
      && o.update.value["last_edit_type"] == Str(kind)
      && o.update.value["last_resource_edited"] == Str(path)
      && o.flash.Some? && o.flash.value.category == Succeeded
    ensures kind == "string" && saved ==>
      && o.update.Some? && "last_content_preview" in o.update.value
      && o.update.value["last_content_preview"] == Str(Preview(content))
    ensures o.flash.Some? && o.flash.value.category == Failed <==>
      !saved && (kind == "string" || kind == "layout" || (kind == "image" && upload.Some? && upload.value != ""))
  {
    if kind == "image" then
      if upload.Some? && upload.value != "" then
        if saved then Outcome(Some(EditRecord(now, path, "image")),
                              Some(Flash(Succeeded, ImageSaved)), EditResource)
        else Outcome(None, Some(Flash(Failed, ImageNotSaved)), EditResource)
      else Outcome(None, None, EditResource)
    else if kind == "string" then
      if saved then Outcome(Some(EditRecord(now, path, "string")["last_content_preview" := Str(Preview(content))]),
                            Some(Flash(Succeeded, StringSaved)), EditResource)
      else Outcome(None, Some(Flash(Failed, StringNotSaved)), EditResource)
    else if kind == "layout" then
      if saved then Outcome(Some(EditRecord(now, path, "layout")["last_content_preview" := Str(LayoutPreview)]),
                            Some(Flash(Succeeded, LayoutSaved)), EditResource)
      else Outcome(None, Some(Flash(Failed, LayoutNotSaved)), EditResource)
    else Outcome(None, None, EditResource)
  }

  // ---------------------------------------------------------------------------
  // compile_apk

  /** Below this size a compiled APK is rejected as invalid. */
  const MinApkSize := 1024

  /** A path was returned, the file exists and it is large enough to be an APK. */
  predicate ValidApk(projectExists: bool, output: Option<string>, sizes: map<string, nat>) {
    projectExists && output.Some? && output.value != "" && output.value in sizes && sizes[output.value] >= MinApkSize
  }

  /** `compile_apk`. `output` is what the compiler returned, and `sizes` the files on
      disk with their sizes; an empty path counts as no output. Compilation is recorded
      only when a path is returned, the file exists and it is at least 1024 bytes; the
      record then holds that size, and only then does the handler go on to the
      download page. */
  function Compile(projectExists: bool, output: Option<string>, sizes: map<string, nat>,
                   signOption: string, now: string): (o: Outcome)
    ensures o.update.Some? <==> ValidApk(projectExists, output, sizes)
    ensures o.target == DownloadApk <==> ValidApk(projectExists, output, sizes)
    ensures o.flash.Some? && (o.flash.value.category == Failed <==> !ValidApk(projectExists, output, sizes))
    ensures o.update.Some? ==>
      && output.Some? && output.value in sizes
      && o.update.value.Keys == {"compiled", "compiled_at", "apk_size", "status"}
      && o.update.value["apk_size"] == Int(sizes[output.value])
      && o.update.value["status"] == Str("compiled")
      && o.update.value["compiled"] == Bool(true)
  {
    if !projectExists then Outcome(None, Some(Flash(Failed, ProjectNotFound)), Index)
    else if output.None? || output.value == "" then
      Outcome(None, Some(Flash(Failed, NoApkOutput)), ProjectView)
    else if output.value !in sizes then
      Outcome(None, Some(Flash(Failed, ApkNotFound)), ProjectView)
    else if sizes[output.value] < MinApkSize then
      Outcome(None, Some(Flash(Failed, ApkTooSmall)), ProjectView)
    else
      var record := map["compiled" := Bool(true), "compiled_at" := Str(now),
                        "apk_size" := Int(sizes[output.value]), "status" := Str("compiled")];
      var message := if signOption == "signed" then CompiledAndSigned
                     else CompiledOnly;
      Outcome(Some(record), Some(Flash(Succeeded, message)), DownloadApk)
  }

  /** A failed compilation leaves the metadata exactly as it was. */
  lemma FailedCompileKeepsMetadata(meta: Metadata, projectExists: bool, output: Option<string>,
                                   sizes: map<string, nat>, signOption: string, now: string)
    requires Compile(projectExists, output, sizes, signOption, now).flash.value.category == Failed
    ensures Commit(meta, Compile(projectExists, output, sizes, signOption, now).update) == meta
  {
  }

  // ---------------------------------------------------------------------------
  // sign_apk

  /** A JSON reply with its HTTP status. */
  datatype JsonReply = JsonReply(success: bool, message: string, status: nat, signedPath: Option<string>)

  datatype SignOutcome = SignOutcome(update: Option<Metadata>, reply: JsonReply)

  /** `os.path.join` of a directory and a relative file name. */
  function JoinPath(dir: string, name: string): (r: string)
    ensures EndsWith(r, name)
  {
    var r := if dir == "" || EndsWith(dir, "/") then dir + name else dir + "/" + name;
    assert r[|r| - |name|..] == name;
    r
  }

  /** `sign_apk`. `compiledPath` is the path the editor reports, `onDisk` the files that
      exist, and `signed` what the signing call returned. Signing is recorded exactly when
      the project exists, its compiled APK is on disk and the signer succeeded; the reply
      is then a 200 naming `signed.apk` in the project directory, and each failure has
      its own status code. */
  function Sign(projectExists: bool, compiledPath: Option<string>, onDisk: set<string>,
                signed: bool, projectDir: string, now: string): (o: SignOutcome)
    ensures var present := compiledPath.Some? && compiledPath.value != "" && compiledPath.value in onDisk;
      && (o.update.Some? <==> projectExists && present && signed)
      && (o.reply.success <==> o.update.Some?)
      && (o.reply.status == 200 <==> o.update.Some?)
      && (o.reply.status == 404 <==> !projectExists)
      && (o.reply.status == 400 <==> projectExists && !present)
      && (o.reply.status == 500 <==> projectExists && present && !signed)
      && (o.update.Some? ==>
            && o.update.value.Keys == {"signed", "signed_at", "status"}
            && o.update.value["status"] == Str("signed")
            && o.reply.signedPath.Some? && EndsWith(o.reply.signedPath.value, "signed.apk"))
  {
    if !projectExists then SignOutcome(None, JsonReply(false, ProjectNotFound, 404, None))
    else if compiledPath.None? || compiledPath.value == "" || compiledPath.value !in onDisk then
      SignOutcome(None, JsonReply(false, NoCompiledApk, 400, None))
    else if signed then
      SignOutcome(Some(map["signed" := Bool(true), "signed_at" := Str(now), "status" := Str("signed")]),
                  JsonReply(true, ApkSigned, 200, Some(JoinPath(projectDir, "signed.apk"))))
    else SignOutcome(None, JsonReply(false, SignFailed, 500, None))
  }

  // ---------------------------------------------------------------------------
  // modify_gui

  /** The reply and record of `modify_gui`: the change is recorded exactly when the
      project exists and the description is not all white space, and the record holds
      the stripped text and the scheme as given. Applying never fails in this model, so
      the failure reply for an exception is not reached. */
  function ModifyGuiOutcome(projectExists: bool, rawChanges: string, scheme: string): (o: Outcome)
    ensures var blank := forall i :: 0 <= i < |rawChanges| ==> IsSpace(rawChanges[i]);
      && (o.update.Some? <==> projectExists && !blank)
      && (o.update.Some? ==>
            && o.update.value.Keys == {"last_gui_changes", "color_scheme", "status"}
            && o.update.value["last_gui_changes"] == Str(Strip(rawChanges))
            && o.update.value["color_scheme"] == Str(scheme)
            && o.update.value["status"] == Str("modified"))
      && (o.flash.Some? && (o.flash.value.category == Succeeded <==> o.update.Some?))
  {
    var changes := Strip(rawChanges);
    StripBlank(rawChanges);
    if !projectExists then Outcome(None, Some(Flash(Failed, ProjectNotFound)), Index)
    else if changes == "" then Outcome(None, Some(Flash(Failed, NoGuiChanges)), ProjectView)
    else Outcome(Some(GuiRecord(changes, scheme)), Some(Flash(Succeeded, GuiApplied)), ProjectView)
  }

  /** The fields `modify_gui` records. */
  function GuiRecord(changes: string, scheme: string): (m: Metadata)
    ensures m.Keys == {"last_gui_changes", "color_scheme", "status"}
    ensures m["last_gui_changes"] == Str(changes) && m["color_scheme"] == Str(scheme)
    ensures m["status"] == Str("modified")
  {
    map["last_gui_changes" := Str(changes), "color_scheme" := Str(scheme), "status" := Str("modified")]
  }

  /** `modify_gui`: when accepted, the stripped description drives the compiler and the
      result is applied to the resource tree; a refused request changes no file. Both
      steps are the corrected ones, with "disconnected" tested first and colour
      declarations matched as hex literals. */
  function ModifyGui(projectExists: bool, rawChanges: string, scheme: string, imagePaths: seq<string>,
                     tree: ResourceTree): (r: (Outcome, ResourceTree))
    ensures (!projectExists || forall i :: 0 <= i < |rawChanges| ==> IsSpace(rawChanges[i])) ==> r.1 == tree
    ensures r.1.colorsXml.Some? <==> tree.colorsXml.Some?
    ensures r.1.stringsXml.Some? <==> tree.stringsXml.Some?
    ensures r.1.layoutDir.Some? <==> tree.layoutDir.Some?
  {
    var o := ModifyGuiOutcome(projectExists, rawChanges, scheme);
    if o.update.Some? then
      (o, ApplyGuiModificationsIntended(tree, GenerateGuiModificationsIntended(Strip(rawChanges), scheme, imagePaths)))
    else (o, tree)
  }

  /** `modify_gui` exactly as written: the same reply, with the compiler and the colour
      rewrite the handler actually calls. */
  function ModifyGuiAsWritten(projectExists: bool, rawChanges: string, scheme: string, imagePaths: seq<string>,
                              tree: ResourceTree): (r: (Outcome, ResourceTree))
    ensures (!projectExists || forall i :: 0 <= i < |rawChanges| ==> IsSpace(rawChanges[i])) ==> r.1 == tree
    ensures r.1.colorsXml.Some? <==> tree.colorsXml.Some?
    ensures r.1.stringsXml.Some? <==> tree.stringsXml.Some?
    ensures r.1.layoutDir.Some? <==> tree.layoutDir.Some?
  {
    var o := ModifyGuiOutcome(projectExists, rawChanges, scheme);
    if o.update.Some? then
      (o, ApplyGuiModifications(tree, GenerateGuiModifications(Strip(rawChanges), scheme, imagePaths)))
    else (o, tree)
  }

  /** End to end as written: asking for a disconnected status records the project as
      modified but writes "Connected" into a one-entry strings file. */
  lemma DisconnectedRequestReportedAsWritten(rawChanges: string, scheme: string, imagePaths: seq<string>,
                                             tree: ResourceTree, prior: string)
    requires var t := Lower(Strip(rawChanges)); StatusFires(t) && Contains(t, "disconnected")
    requires tree.stringsXml == Some(StringOpen("connection_status") + prior + StringClose)
    requires '\n' !in prior && '\r' !in prior && !Contains(prior, StringClose)
    ensures var r := ModifyGuiAsWritten(true, rawChanges, scheme, imagePaths, tree);
      && r.0.update.Some?
      && r.1.stringsXml == Some(StringOpen("connection_status") + "Connected" + StringClose)
  {
    var changes := Strip(rawChanges);
    assert |Lower(changes)| == |changes|;
    StatusStrings(changes, scheme, imagePaths);
    StatusNamePlain();
    PlainEntryRead("connection_status", prior);
    SingleEntryRewritten("connection_status", prior, "Connected");
  }

  /** As written, when the old status value holds a carriage return (and no `<`): the
      project is still recorded as modified, but the text-mode read has turned the
      carriage return into a line break that the lazy match cannot cross, so the value
      stays and only its line endings change. */
  lemma CarriageReturnStatusKeptAsWritten(rawChanges: string, scheme: string, imagePaths: seq<string>,
                                          tree: ResourceTree, prior: string)
    requires var t := Lower(Strip(rawChanges)); StatusFires(t) && Contains(t, "disconnected")
    requires tree.stringsXml == Some(StringOpen("connection_status") + prior + StringClose)
    requires '<' !in prior && '\r' in prior
    ensures var r := ModifyGuiAsWritten(true, rawChanges, scheme, imagePaths, tree);
      && r.0.update.Some?
      && r.1.stringsXml == Some(StringOpen("connection_status") + ReadText(prior) + StringClose)
  {
    var changes := Strip(rawChanges);
    assert |Lower(changes)| == |changes|;
    StatusStrings(changes, scheme, imagePaths);
    StatusNamePlain();
    CarriageReturnEntryKept("connection_status", prior, "Connected");
  }

  /** End to end with the corrected compiler: asking for a disconnected status rewrites a
      one-entry strings file to "Disconnected", and the project is recorded as modified. */
  lemma DisconnectedRequestReportedIntended(rawChanges: string, scheme: string, imagePaths: seq<string>,
                                            tree: ResourceTree, prior: string)
    requires var t := Lower(Strip(rawChanges)); StatusFires(t) && Contains(t, "disconnected")
    requires tree.stringsXml == Some(StringOpen("connection_status") + prior + StringClose)
    requires '\n' !in prior && '\r' !in prior && !Contains(prior, StringClose)
    ensures var r := ModifyGui(true, rawChanges, scheme, imagePaths, tree);
      && r.0.update.Some?
      && r.1.stringsXml == Some(StringOpen("connection_status") + "Disconnected" + StringClose)
  {
    var changes := Strip(rawChanges);
    assert |Lower(changes)| == |changes|;
    IntendedStatusStrings(changes, scheme, imagePaths);
    StatusNamePlain();
    PlainEntryRead("connection_status", prior);
    SingleEntryRewritten("connection_status", prior, "Disconnected");
  }

  /** With the corrected compiler too, an old status value holding a carriage return (and
      no `<`) is not replaced: only its line endings change. */
  lemma CarriageReturnStatusKeptIntended(rawChanges: string, scheme: string, imagePaths: seq<string>,
                                         tree: ResourceTree, prior: string)
    requires var t := Lower(Strip(rawChanges)); StatusFires(t) && Contains(t, "disconnected")
    requires tree.stringsXml == Some(StringOpen("connection_status") + prior + StringClose)
    requires '<' !in prior && '\r' in prior
    ensures var r := ModifyGui(true, rawChanges, scheme, imagePaths, tree);
      && r.0.update.Some?
      && r.1.stringsXml == Some(StringOpen("connection_status") + ReadText(prior) + StringClose)
  {
    var changes := Strip(rawChanges);
    assert |Lower(changes)| == |changes|;
    IntendedStatusStrings(changes, scheme, imagePaths);
    StatusNamePlain();
    CarriageReturnEntryKept("connection_status", prior, "Disconnected");
  }

  /** Submitting the same change request twice leaves the resource tree as submitting
      it once. */
  lemma ModifyGuiTwice(projectExists: bool, rawChanges: string, scheme: string, imagePaths: seq<string>,
                       tree: ResourceTree)
    ensures var once := ModifyGui(projectExists, rawChanges, scheme, imagePaths, tree).1;
      ModifyGui(projectExists, rawChanges, scheme, imagePaths, once).1 == once
  {
    ApplyTwiceIsApplyOnceIntended(tree, Strip(rawChanges), scheme, imagePaths);
  }

  /** The pipeline as written is idempotent as well, for a colours file without a `[`:
      the colour step as written replaces the pattern's own text literally, which only a
      file holding `#[0-9A-Fa-f]{6}</color>` can contain, and this lemma leaves such a
      file out. */
  lemma ModifyGuiAsWrittenTwice(projectExists: bool, rawChanges: string, scheme: string, imagePaths: seq<string>,
                                tree: ResourceTree)
    requires tree.colorsXml.Some? ==> '[' !in tree.colorsXml.value
    ensures var once := ModifyGuiAsWritten(projectExists, rawChanges, scheme, imagePaths, tree).1;
      ModifyGuiAsWritten(projectExists, rawChanges, scheme, imagePaths, once).1 == once
  {
    ApplyTwiceIsApplyOnce(tree, Strip(rawChanges), scheme, imagePaths);
  }
}
