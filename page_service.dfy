/** The page handlers of src/service/page.go that decide something: the
    people search with its "next page" link, and the profile edit form
    with its description check and photo replacement. */
module PageService {
  import opened Base
  import opened Repository
  import opened DecimalText

  // ---------------------------------------------------------------------
  // Counting runes as `utf8.RuneCountInString` does

  predicate IsContinuation(b: byte) { 0x80 <= b <= 0xBF }

  /** The bytes `utf8.RuneCountInString` steps over at `i`: a valid UTF-8
      sequence counts as one rune; a byte that does not start one (an
      invalid or truncated sequence, an overlong form, a surrogate, a code
      point above U+10FFFF) counts as one rune by itself. */
  function RuneWidth(s: Bytes, i: nat): (w: nat)
    requires i < |s|
    ensures 1 <= w <= 4 && i + w <= |s|
    ensures s[i] < 0x80 ==> w == 1
  {
    var c := s[i];
    if c < 0x80 || c < 0xC2 || c > 0xF4 then 1
    else
      var size := if c < 0xE0 then 2 else if c < 0xF0 then 3 else 4;
      var lo: byte := if c == 0xE0 then 0xA0 else if c == 0xF0 then 0x90 else 0x80;
      var hi: byte := if c == 0xED then 0x9F else if c == 0xF4 then 0x8F else 0xBF;
      if i + size > |s| then 1
      else if s[i + 1] < lo || hi < s[i + 1] then 1
      else if size == 2 then 2
      else if !IsContinuation(s[i + 2]) then 1
      else if size == 3 then 3
      else if !IsContinuation(s[i + 3]) then 1
      else 4
  }

  function RuneCountFrom(s: Bytes, i: nat): nat
    requires i <= |s|
    decreases |s| - i
  {
    if i == |s| then 0 else 1 + RuneCountFrom(s, i + RuneWidth(s, i))
  }

  function RuneCount(s: Bytes): (r: nat)
    ensures r <= |s| && 4 * r >= |s|
  {
    RuneCountBounds(s, 0);
    RuneCountFrom(s, 0)
  }

  /** A string has at most as many runes as bytes, and at least one rune
      per four bytes. */
  lemma {:induction false} RuneCountBounds(s: Bytes, i: nat)
    requires i <= |s|
    ensures RuneCountFrom(s, i) <= |s| - i
    ensures 4 * RuneCountFrom(s, i) >= |s| - i
    ensures i < |s| ==> RuneCountFrom(s, i) >= 1
    decreases |s| - i
  {
    if i < |s| {
      RuneCountBounds(s, i + RuneWidth(s, i));
    }
  }

  /** For ASCII text runes and bytes coincide. */
  lemma {:induction false} RuneCountAscii(s: Bytes, i: nat)
    requires i <= |s|
    requires forall k :: 0 <= k < |s| ==> s[k] < 0x80
    ensures RuneCountFrom(s, i) == |s| - i
    decreases |s| - i
  {
    if i < |s| {
      RuneCountAscii(s, i + 1);
    }
  }

  /** "Ян" in UTF-8 is four bytes but two runes: too short a prefix,
      although `len` would call it long enough. */
  lemma TwoCyrillicLetters()
    ensures RuneCount([0xD0, 0xAF, 0xD0, 0xBD]) == 2
  {
    var s: Bytes := [0xD0, 0xAF, 0xD0, 0xBD];
    assert RuneWidth(s, 0) == 2;
    assert RuneWidth(s, 2) == 2;
  }

  // ---------------------------------------------------------------------
  // SearchHandler

  const SearchPageSize: nat := 1000
  const MinPrefixRunes: nat := 3

  /** What the search template shows for one page. */
  datatype Shown = Shown(users: seq<User>, hasNext: bool, minId: int)

  /** The page decision: `limit + 1` rows were requested, so a full extra
      row means there is a next page, which starts after the last row shown. */
  function PageOf(users: seq<User>, pageSize: nat): (p: Shown)
    requires pageSize >= 1
    ensures p.hasNext <==> |users| == pageSize + 1
    ensures p.hasNext ==> p.users == users[..pageSize] && p.minId == users[pageSize - 1].ID
    ensures !p.hasNext ==> p.users == users && p.minId == 0
  {
    if |users| == pageSize + 1 then Shown(users[..pageSize], true, users[pageSize - 1].ID)
    else Shown(users, false, 0)
  }

  /** On ascending results, the link to the next page loses nothing: every
      shown id is at most the cursor, and the held-back row lies beyond it. */
  lemma PageOfContinues(users: seq<User>, pageSize: nat)
    requires pageSize >= 1
    requires forall i, j :: 0 <= i < j < |users| ==> users[i].ID < users[j].ID
    requires PageOf(users, pageSize).hasNext
    ensures forall u :: u in PageOf(users, pageSize).users ==> u.ID <= PageOf(users, pageSize).minId
    ensures users[pageSize].ID > PageOf(users, pageSize).minId
    ensures |PageOf(users, pageSize).users| == pageSize
  {
    var p := PageOf(users, pageSize);
    forall u | u in p.users ensures u.ID <= p.minId {
      var k :| 0 <= k < |p.users| && p.users[k] == u;
      assert users[k] == u;
    }
  }

  datatype SearchView =
    | BlankForm                           // no prefix: the empty form, no query
    | PrefixTooShort(prefix: Bytes)       // fewer than 3 runes
    | SearchFailed                        // the query failed
    | Results(prefix: Bytes, page: Shown)

  /** `SearchHandler`: validates `prefix`, reads the cursor `minId` with its
      parse error ignored, asks for one row more than a page and decides the
      next-page link. `idx` is the replica `GetRoDB` draws. */
  method SearchHandler(prefix: Bytes, minIdText: Bytes, repo: Repo, idx: int, fault: bool)
    returns (view: SearchView)
    requires repo.Valid()
    requires 0 <= idx < |repo.readReplicas|
    modifies repo`masterCnt, repo`slaveCnt
    ensures repo.Valid()
    ensures |prefix| == 0 ==> view == BlankForm
    ensures |prefix| > 0 && RuneCount(prefix) < MinPrefixRunes ==> view == PrefixTooShort(prefix)
    ensures view.BlankForm? || view.PrefixTooShort? ==>
      repo.masterCnt == old(repo.masterCnt) && repo.slaveCnt == old(repo.slaveCnt)
    ensures |prefix| > 0 && RuneCount(prefix) >= MinPrefixRunes ==> (view == SearchFailed <==> fault)
    ensures |prefix| > 0 && RuneCount(prefix) >= MinPrefixRunes && !fault ==> view.Results?
    ensures view.SearchFailed? || view.Results? ==>
      && (idx == 0 ==> repo.masterCnt == IncInt32(old(repo.masterCnt)) && repo.slaveCnt == old(repo.slaveCnt))
      && (idx != 0 ==> repo.slaveCnt == IncInt32(old(repo.slaveCnt)) && repo.masterCnt == old(repo.masterCnt))
    ensures view.Results? ==>
      && view.prefix == prefix
      && view.page == PageOf(SearchUsers(PrefixRows(repo.users, prefix, SearchPageSize + 1, ParseInt(minIdText).0)),
                             SearchPageSize)
      && SearchResultSound(view.page.users, prefix, SearchPageSize, ParseInt(minIdText).0)
  {
    if |prefix| == 0 {
      return BlankForm;
    }
    if RuneCount(prefix) < MinPrefixRunes {
      return PrefixTooShort(prefix);
    }
    var fromId := ParseInt(minIdText).0;
    var users := repo.FindByNamePrefix(prefix, SearchPageSize + 1, fromId, idx, fault);
    if users.Err? {
      return SearchFailed;
    }
    var hasNext := false;
    var minId := 0;
    var list := users.value;
    if |list| == SearchPageSize + 1 {
      hasNext := true;
      minId := list[SearchPageSize - 1].ID;
      list := list[..SearchPageSize];
    }
    view := Results(prefix, Shown(list, hasNext, minId));
  }

  // ---------------------------------------------------------------------
  // EditHandler

  const Amp: byte := 0x26
  const Apos: byte := 0x27
  const Lt: byte := 0x3C
  const Gt: byte := 0x3E
  const Quot: byte := 0x22

  /** `html.EscapeString` on one byte. */
  function EscapeByte(b: byte): Bytes {
    if b == Lt then [Amp, 0x6C, 0x74, 0x3B]                       // &lt;
    else if b == Gt then [Amp, 0x67, 0x74, 0x3B]                  // &gt;
    else if b == Amp then [Amp, 0x61, 0x6D, 0x70, 0x3B]           // &amp;
    else if b == Apos then [Amp, 0x23, 0x33, 0x39, 0x3B]          // &#39;
    else if b == Quot then [Amp, 0x23, 0x33, 0x34, 0x3B]          // &#34;
    else [b]
  }

  predicate IsSpecial(b: byte) { b == Lt || b == Gt || b == Amp || b == Apos || b == Quot }

  /** `html.EscapeString`. */
  function Escape(s: Bytes): (r: Bytes)
    ensures |s| <= |r| <= 5 * |s|
  {
    if s == [] then [] else Escape(s[..|s| - 1]) + EscapeByte(s[|s| - 1])
  }

  /** Escaping never shortens the text and leaves no markup delimiter or quote. */
  lemma {:induction false} EscapeSafe(s: Bytes)
    ensures |Escape(s)| >= |s|
    ensures forall k :: 0 <= k < |Escape(s)| ==> !IsSpecial(Escape(s)[k]) || Escape(s)[k] == Amp
  {
    if s != [] {
      EscapeSafe(s[..|s| - 1]);
    }
  }

  /** Text without special characters is stored as typed. */
  lemma {:induction false} EscapePlain(s: Bytes)
    requires forall k :: 0 <= k < |s| ==> !IsSpecial(s[k])
    ensures Escape(s) == s
  {
    if s != [] {
      EscapePlain(s[..|s| - 1]);
    }
  }

  const MinDescriptionBytes: nat := 20
  const MePath: string := "/me"
  const RootPath: string := "/"

  /** A call into the file store, in the order made. */
  datatype FileOp = SaveFile(uploadName: Bytes) | DeleteFile(name: Bytes)

  datatype EditError = FormUnreadable | DescriptionTooShort | NoPhoto | UploadFailed | UpdateFailed

  datatype EditView = EditRedirect(path: string) | EditForm(error: EditError)

  /** The outcome of the checks before the file is saved: `None` when they
      all pass. */
  function EditCheck(formOk: bool, description: Bytes, photo: Option<Bytes>): (e: Option<EditError>)
    ensures e.None? <==> formOk && |description| >= MinDescriptionBytes && photo.Some?
    ensures e == Some(DescriptionTooShort) <==> formOk && |description| < MinDescriptionBytes
  {
    if !formOk then Some(FormUnreadable)
    else if |description| < MinDescriptionBytes then Some(DescriptionTooShort)
    else if photo.None? then Some(NoPhoto)
    else None
  }

  /** `EditHandler` (POST): checks the description's byte length, escapes
      it, saves the uploaded photo under the name `saved` the store returns,
      and updates the profile. A failed update deletes the new file and
      keeps the old one; a successful one deletes the old file. When the
      session user cannot be read the handler sends its redirect to "/" but
      does not return: it goes on through the checks and the upload, and
      stops with a nil dereference before the update, so the response stays
      that redirect and the saved file is left behind. */
  method EditHandler(me: Result<User>, formOk: bool, description: Bytes, photo: Option<Bytes>,
                     saved: Result<Bytes>, repo: Repo, fault: bool)
    returns (view: EditView, files: seq<FileOp>)
    requires repo.Valid()
    modifies repo`users
    ensures repo.Valid()
    ensures me.Err? ==> view == EditRedirect(RootPath)
    ensures me.Ok? && EditCheck(formOk, description, photo).Some? ==>
      view == EditForm(EditCheck(formOk, description, photo).value)
    ensures EditCheck(formOk, description, photo).Some? ==> files == []
    ensures EditCheck(formOk, description, photo).None? ==>
      && (saved.Err? || me.Err? ==> files == [SaveFile(photo.value)])
      && (me.Ok? && saved.Err? ==> view == EditForm(UploadFailed))
      && (me.Ok? && saved.Ok? && fault ==>
            view == EditForm(UpdateFailed) && files == [SaveFile(photo.value), DeleteFile(saved.value)])
      && (me.Ok? && saved.Ok? && !fault ==>
            view == EditRedirect(MePath) && files == [SaveFile(photo.value), DeleteFile(me.value.PhotoFile)])
    ensures view != EditRedirect(MePath) ==> repo.users == old(repo.users)
    ensures view == EditRedirect(MePath) ==>
      && me.Ok? && saved.Ok?
      && |repo.users| == |old(repo.users)|
      && forall i :: 0 <= i < |repo.users| ==>
           repo.users[i] == if old(repo.users)[i].ID == me.value.ID
                            then old(repo.users)[i].(Description := Escape(description), PhotoFile := saved.value)
                            else old(repo.users)[i]
    ensures view == EditRedirect(MePath) ==> |Escape(description)| >= MinDescriptionBytes
  {
    files := [];
    // the redirect written first is what the client gets
    var first: Option<EditView> := if me.Err? then Some(EditRedirect(RootPath)) else None;
    if !formOk {
      return if first.Some? then first.value else EditForm(FormUnreadable), files;
    }
    if |description| < MinDescriptionBytes {
      return if first.Some? then first.value else EditForm(DescriptionTooShort), files;
    }
    var escaped := Escape(description);
    EscapeSafe(description);
    if photo.None? {
      return if first.Some? then first.value else EditForm(NoPhoto), files;
    }
    files := files + [SaveFile(photo.value)];
    if saved.Err? {
      return if first.Some? then first.value else EditForm(UploadFailed), files;
    }
    if me.Err? {
      // reading the old photo of a nil user panics; the middleware recovers
      return first.value, files;
    }
    var user := me.value;
    var fName := saved.value;
    var oldFile := user.PhotoFile;
    user := user.(Description := escaped, PhotoFile := fName);
    var status := repo.Update(user, fault);
    if status.Failed? {
      files := files + [DeleteFile(fName)];
      return EditForm(UpdateFailed), files;
    }
    files := files + [DeleteFile(oldFile)];
    view := EditRedirect(MePath);
  }
}
