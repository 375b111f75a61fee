/** The in-memory image registry: the ordered list of image records and the
    id of the record shown in the editor, with the transitions the user
    interface applies to them (intake of a file batch, clear-all, select,
    title/description edits, keyword add and remove) and the Ready/Pending
    status derived from a record's title. */
module Registry {
  import opened Wrappers
  import opened Strings

  /** Record ids are opaque strings. */
  type Id = string

  /** A dropped or picked file: its name and its declared MIME type. */
  datatype File = File(name: string, mimeType: string)

  datatype Image = Image(
    id: Id,
    file: File,
    title: string,
    description: string,
    keywords: seq<string>)

  /** `selected` is `None` where the application holds `null`. */
  datatype Registry = Registry(images: seq<Image>, selected: Option<Id>)

  /** The status shown on a record's card. */
  datatype Status = Pending | Ready

  /** Ready exactly when the title is non-empty (an empty string is falsy). */
  function StatusOf(img: Image): Status {
    if img.title != "" then Ready else Pending
  }

  /** The two free-text fields the editor writes back. */
  datatype Field = Title | Description

  // ----- Lookup -----------------------------------------------------------

  /** `images.find(i => i.id === id)`, as the position of the first record
      with that id. */
  function FindIndex(images: seq<Image>, id: Id): (r: Option<nat>)
    ensures r.Some? ==> r.value < |images| && images[r.value].id == id
    ensures r.Some? ==> forall j :: 0 <= j < r.value ==> images[j].id != id
    ensures r.None? <==> forall j :: 0 <= j < |images| ==> images[j].id != id
  {
    if |images| == 0 then None
    else if images[0].id == id then Some(0)
    else match FindIndex(images[1..], id)
      case None => None
      case Some(k) => Some(k + 1)
  }

  /** Two record lists with the same ids, position by position. */
  predicate SameIds(a: seq<Image>, b: seq<Image>) {
    |a| == |b| && forall j :: 0 <= j < |a| ==> a[j].id == b[j].id
  }

  /** Lookup depends only on the ids. */
  lemma FindIndexSameIds(a: seq<Image>, b: seq<Image>, id: Id)
    requires SameIds(a, b)
    ensures FindIndex(a, id) == FindIndex(b, id)
  {
    var ra, rb := FindIndex(a, id), FindIndex(b, id);
    if ra.Some? && rb.Some? {
      assert !(ra.value < rb.value) && !(rb.value < ra.value);
    }
  }

  // ----- Invariants ---------------------------------------------------------

  predicate DistinctIds(images: seq<Image>) {
    forall i, j :: 0 <= i < j < |images| ==> images[i].id != images[j].id
  }

  /** The selection test the application writes as `!selectedImageId`: both
      `null` and the empty string count as "nothing selected". */
  predicate HasSelection(s: Registry) {
    s.selected.Some? && s.selected.value != ""
  }

  /** Ids are non-empty and distinct; a record is selected exactly when the
      registry is non-empty, and the selected id belongs to a record. */
  predicate Valid(s: Registry) {
    && DistinctIds(s.images)
    && (forall j :: 0 <= j < |s.images| ==> s.images[j].id != "")
    && (HasSelection(s) <==> |s.images| > 0)
    && (s.selected.Some? ==> FindIndex(s.images, s.selected.value).Some?)
  }

  predicate NoDuplicates<T(==)>(xs: seq<T>) {
    forall i, j :: 0 <= i < j < |xs| ==> xs[i] != xs[j]
  }

  /** No record lists a keyword twice. */
  predicate KeywordsUnique(s: Registry) {
    forall j :: 0 <= j < |s.images| ==> NoDuplicates(s.images[j].keywords)
  }

  /** `r` differs from `s` at most in the metadata of the record at `k`:
      same selection, same length, same id and file at `k`, and every other
      record is unchanged. */
  predicate OnlyChanged(s: Registry, r: Registry, k: nat) {
    && r.selected == s.selected
    && |r.images| == |s.images|
    && k < |s.images|
    && r.images[k].id == s.images[k].id
    && r.images[k].file == s.images[k].file
    && forall j :: 0 <= j < |s.images| && j != k ==> r.images[j] == s.images[j]
  }

  /** Replaces the record at `k` by `img`. */
  function WithImage(s: Registry, k: nat, img: Image): Registry
    requires k < |s.images|
  {
    s.(images := s.images[k := img])
  }

  /** Replacing a record's metadata in place changes nothing else, keeps the
      invariant, and keeps keywords unique when the new keyword list is. */
  lemma WithImageKeeps(s: Registry, k: nat, img: Image)
    requires k < |s.images|
    requires img.id == s.images[k].id && img.file == s.images[k].file
    ensures OnlyChanged(s, WithImage(s, k, img), k)
    ensures Valid(s) ==> Valid(WithImage(s, k, img))
    ensures KeywordsUnique(s) && NoDuplicates(img.keywords) ==> KeywordsUnique(WithImage(s, k, img))
  {
    var r := WithImage(s, k, img);
    assert SameIds(s.images, r.images);
    FindIndexSameIds(s.images, r.images, s.selected.GetOr(""));
  }

  // ----- Intake -------------------------------------------------------------

  /** A file is accepted when its declared type starts with "image/". */
  predicate IsImageFile(f: File) {
    StartsWith(f.mimeType, "image/")
  }

  /** The image files of a batch, in input order. */
  function ImageFiles(files: seq<File>): (r: seq<File>)
    ensures |r| <= |files|
    ensures forall i :: 0 <= i < |r| ==> IsImageFile(r[i])
    ensures forall f :: f in files && IsImageFile(f) ==> f in r
    ensures forall f :: f in r ==> f in files
  {
    if |files| == 0 then []
    else if IsImageFile(files[0]) then [files[0]] + ImageFiles(files[1..])
    else ImageFiles(files[1..])
  }

  /** Filtering distributes over concatenation: the accepted files of a batch
      are those of its first part followed by those of its second part, so
      input order is kept. */
  lemma {:induction false} ImageFilesAppend(a: seq<File>, b: seq<File>)
    ensures ImageFiles(a + b) == ImageFiles(a) + ImageFiles(b)
  {
    if |a| > 0 {
      assert (a + b)[0] == a[0];
      assert (a + b)[1..] == a[1..] + b;
      ImageFilesAppend(a[1..], b);
    } else {
      assert a + b == b;
    }
  }

  /** One file is kept exactly when it is an image file. */
  lemma ImageFilesSingle(f: File)
    ensures ImageFiles([f]) == if IsImageFile(f) then [f] else []
  {
    assert [f][1..] == [];
  }

  /** A fresh record: the given id, the file, and empty metadata. */
  function NewImage(id: Id, f: File): Image {
    Image(id, f, "", "", [])
  }

  /** One fresh record per accepted file, paired with the ids in order. */
  function NewImages(files: seq<File>, ids: seq<Id>): (r: seq<Image>)
    requires |ids| == |files|
    ensures |r| == |files|
    ensures forall i :: 0 <= i < |r| ==> r[i] == NewImage(ids[i], files[i])
  {
    if |files| == 0 then []
    else [NewImage(ids[0], files[0])] + NewImages(files[1..], ids[1..])
  }

  /** The two parts of a concatenation can be read back from it. */
  lemma AppendParts<T>(a: seq<T>, b: seq<T>)
    ensures (a + b)[..|a|] == a
    ensures forall i :: 0 <= i < |b| ==> (a + b)[|a| + i] == b[i]
  {
  }

  /** The ids the generator hands out for a batch: non-empty, pairwise
      distinct, and not already in the registry. */
  predicate FreshIds(ids: seq<Id>, images: seq<Image>) {
    && (forall i :: 0 <= i < |ids| ==> ids[i] != "")
    && (forall i, j :: 0 <= i < j < |ids| ==> ids[i] != ids[j])
    && (forall i, k :: 0 <= i < |ids| && 0 <= k < |images| ==> ids[i] != images[k].id)
  }

  /** `handleFiles`: keep the image files, append one fresh record per image
      file after the existing records, and select the registry's first record
      if nothing was selected. `ids` stands for the ids generated at intake,
      one per accepted file. */
  function Intake(s: Registry, files: seq<File>, ids: seq<Id>): (r: Registry)
    requires |ids| == |ImageFiles(files)|
    ensures |ImageFiles(files)| == 0 ==> r == s
    ensures |r.images| == |s.images| + |ImageFiles(files)|
    ensures r.images[..|s.images|] == s.images
    ensures forall i :: 0 <= i < |ids| ==>
              r.images[|s.images| + i] == NewImage(ids[i], ImageFiles(files)[i])
    ensures HasSelection(s) ==> r.selected == s.selected
    ensures !HasSelection(s) && |ids| > 0 ==> r.selected == Some(r.images[0].id)
    ensures Valid(s) && FreshIds(ids, s.images) ==> Valid(r)
    ensures KeywordsUnique(s) ==> KeywordsUnique(r)
  {
    var accepted := ImageFiles(files);
    if |accepted| == 0 then s
    else
      var images := s.images + NewImages(accepted, ids);
      var r := Registry(images,
                        if !HasSelection(s) && |images| > 0 then Some(images[0].id)
                        else s.selected);
      AppendParts(s.images, NewImages(accepted, ids));
      assert Valid(s) && FreshIds(ids, s.images) ==> Valid(r) by {
        if Valid(s) && FreshIds(ids, s.images) {
          IntakeKeepsValid(s, accepted, ids, r);
        }
      }
      r
  }

  lemma IntakeKeepsValid(s: Registry, accepted: seq<File>, ids: seq<Id>, r: Registry)
    requires Valid(s) && FreshIds(ids, s.images)
    requires |ids| == |accepted| > 0
    requires r.images == s.images + NewImages(accepted, ids)
    requires r.selected == if !HasSelection(s) then Some(r.images[0].id) else s.selected
    ensures Valid(r)
  {
    var n := |s.images|;
    var added := NewImages(accepted, ids);
    forall i, j | 0 <= i < j < |r.images|
      ensures r.images[i].id != r.images[j].id
    {
      if j >= n {
        assert r.images[j] == added[j - n];
        if i >= n {
          assert r.images[i] == added[i - n];
        }
      }
    }
    if HasSelection(s) {
      var k := FindIndex(s.images, s.selected.value).value;
      assert r.images[k].id == s.selected.value;
    } else {
      assert n == 0;
      assert r.images[0] == added[0];
    }
  }

  /** With the registry invariant, a batch that arrives while nothing is
      selected selects its own first image. */
  lemma IntakeSelectsFirstNew(s: Registry, files: seq<File>, ids: seq<Id>)
    requires Valid(s) && !HasSelection(s)
    requires |ids| == |ImageFiles(files)| > 0
    ensures Intake(s, files, ids).selected == Some(ids[0])
    ensures Intake(s, files, ids).images[0] == NewImage(ids[0], ImageFiles(files)[0])
  {
  }

  /** Every record an intake adds starts Pending, and the records already
      there keep their status. */
  lemma IntakeStatus(s: Registry, files: seq<File>, ids: seq<Id>)
    requires |ids| == |ImageFiles(files)|
    ensures var r := Intake(s, files, ids);
            && (forall i :: 0 <= i < |s.images| ==> StatusOf(r.images[i]) == StatusOf(s.images[i]))
            && (forall i :: |s.images| <= i < |r.images| ==> StatusOf(r.images[i]) == Pending)
  {
    var r := Intake(s, files, ids);
    var n := |s.images|;
    var added := ImageFiles(files);
    forall i | 0 <= i < n
      ensures StatusOf(r.images[i]) == StatusOf(s.images[i])
    {
      assert r.images[..n][i] == r.images[i];
    }
    forall i | n <= i < |r.images|
      ensures StatusOf(r.images[i]) == Pending
    {
      var j := i - n;
      assert 0 <= j < |ids|;
      assert r.images[n + j] == NewImage(ids[j], added[j]);
    }
  }

  // ----- Clear all, select --------------------------------------------------

  /** The clear-all button: on confirmation, no records and no selection. */
  function ClearAll(s: Registry, confirmed: bool): (r: Registry)
    ensures confirmed ==> |r.images| == 0 && !HasSelection(r) && Valid(r) && KeywordsUnique(r)
    ensures !confirmed ==> r == s
  {
    if confirmed then Registry([], None) else s
  }

  /** `selectImage`: the given id becomes the selection, records untouched. */
  function Select(s: Registry, id: Id): (r: Registry)
    ensures r.images == s.images
    ensures r.selected == Some(id)
    ensures Valid(s) && FindIndex(s.images, id).Some? ==> Valid(r)
  {
    s.(selected := Some(id))
  }

  /** The record the editor loads: none without a selection (the `!id`
      guard, which also rejects the empty id), otherwise the first record
      carrying the selected id. */
  function SelectedImage(s: Registry): (r: Option<Image>)
    ensures !HasSelection(s) ==> r.None?
    ensures r.Some? ==> HasSelection(s) && r.value in s.images && r.value.id == s.selected.value
    ensures (HasSelection(s) && exists j :: 0 <= j < |s.images| && s.images[j].id == s.selected.value)
            ==> r.Some?
  {
    if !HasSelection(s) then None
    else
      match FindIndex(s.images, s.selected.value)
      case None => None
      case Some(k) => Some(s.images[k])
  }

  /** Selecting a record's id makes the editor show exactly that record. */
  lemma SelectShowsRecord(s: Registry, k: nat)
    requires DistinctIds(s.images) && k < |s.images| && s.images[k].id != ""
    ensures SelectedImage(Select(s, s.images[k].id)) == Some(s.images[k])
  {
    var r := FindIndex(s.images, s.images[k].id);
    assert r.Some?;
    assert !(r.value < k);
  }

  // ----- Field edits --------------------------------------------------------

  function SetField(img: Image, field: Field, value: string): Image {
    match field
    case Title => img.(title := value)
    case Description => img.(description := value)
  }

  /** `updateImageData(id, {field: value})`: overwrite one field of the first
      record with that id; an unknown id changes nothing. */
  function UpdateField(s: Registry, id: Id, field: Field, value: string): (r: Registry)
    ensures FindIndex(s.images, id).None? ==> r == s
    ensures FindIndex(s.images, id).Some? ==> OnlyChanged(s, r, FindIndex(s.images, id).value)
    ensures FindIndex(s.images, id).Some? ==>
              var k := FindIndex(s.images, id).value;
              && r.images[k].keywords == s.images[k].keywords
              && r.images[k].title == (if field == Title then value else s.images[k].title)
              && r.images[k].description == (if field == Description then value else s.images[k].description)
    ensures Valid(s) ==> Valid(r)
    ensures KeywordsUnique(s) ==> KeywordsUnique(r)
  {
    match FindIndex(s.images, id)
    case None => s
    case Some(k) =>
      WithImageKeeps(s, k, SetField(s.images[k], field, value));
      WithImage(s, k, SetField(s.images[k], field, value))
  }

  /** With distinct ids, an edit reaches exactly the record with that id, and
      a title edit decides its status: Ready exactly when the new title is
      non-empty. A description edit never changes a status. */
  lemma UpdateFieldStatus(s: Registry, id: Id, field: Field, value: string, j: nat)
    requires DistinctIds(s.images) && j < |s.images|
    ensures var r := UpdateField(s, id, field, value);
            && (s.images[j].id != id ==> r.images[j] == s.images[j])
            && (s.images[j].id == id && field == Title ==> (StatusOf(r.images[j]) == Ready <==> value != ""))
            && (field == Description ==> StatusOf(r.images[j]) == StatusOf(s.images[j]))
  {
    var f := FindIndex(s.images, id);
    if s.images[j].id == id {
      assert f.Some?;
      assert !(f.value < j) && !(j < f.value);
    }
  }

  // ----- Keywords -----------------------------------------------------------

  /** `addKeyword(id, keyword)`: append the keyword to the first record with
      that id unless it is already listed; an unknown id changes nothing. */
  function AddKeyword(s: Registry, id: Id, keyword: string): (r: Registry)
    ensures FindIndex(s.images, id).None? ==> r == s
    ensures FindIndex(s.images, id).Some? ==> OnlyChanged(s, r, FindIndex(s.images, id).value)
    ensures FindIndex(s.images, id).Some? ==>
              var k := FindIndex(s.images, id).value;
              && r.images[k].title == s.images[k].title
              && r.images[k].description == s.images[k].description
              && r.images[k].keywords == (if keyword in s.images[k].keywords then s.images[k].keywords
                                          else s.images[k].keywords + [keyword])
              && keyword in r.images[k].keywords
    ensures Valid(s) ==> Valid(r)
    ensures KeywordsUnique(s) ==> KeywordsUnique(r)
  {
    match FindIndex(s.images, id)
    case None => s
    case Some(k) =>
      var img := s.images[k];
      if keyword in img.keywords then s
      else
        var img' := img.(keywords := img.keywords + [keyword]);
        assert NoDuplicates(img.keywords) ==> NoDuplicates(img'.keywords);
        WithImageKeeps(s, k, img');
        WithImage(s, k, img')
  }

  /** Adding the same keyword twice is the same as adding it once. */
  lemma AddKeywordIdempotent(s: Registry, id: Id, keyword: string)
    ensures AddKeyword(AddKeyword(s, id, keyword), id, keyword) == AddKeyword(s, id, keyword)
  {
    var r := AddKeyword(s, id, keyword);
    if FindIndex(s.images, id).Some? {
      assert SameIds(s.images, r.images);
      FindIndexSameIds(s.images, r.images, id);
    }
  }

  /** The keyword entry box: the typed text is trimmed, and a blank entry is
      ignored; otherwise the trimmed text is added to the selected record. */
  function EnterKeyword(s: Registry, typed: string): (r: Registry)
    ensures Trim(typed) == "" || s.selected.None? ==> r == s
    ensures Trim(typed) != "" && s.selected.Some? ==> r == AddKeyword(s, s.selected.value, Trim(typed))
    ensures |r.images| == |s.images|
    ensures forall j :: 0 <= j < |s.images| ==>
              || r.images[j].keywords == s.images[j].keywords
              || r.images[j].keywords == s.images[j].keywords + [Trim(typed)]
    ensures Valid(s) ==> Valid(r)
    ensures KeywordsUnique(s) ==> KeywordsUnique(r)
  {
    var val := Trim(typed);
    if val == "" then s
    else match s.selected
      case None => s
      case Some(id) => AddKeyword(s, id, val)
  }

  /** Entering a keyword the selected record does not list, then removing
      that record's last keyword, gives back the registry as it was. */
  lemma EnterThenRemove(s: Registry, typed: string)
    requires s.selected.Some? && FindIndex(s.images, s.selected.value).Some?
    requires Trim(typed) != ""
    requires Trim(typed) !in s.images[FindIndex(s.images, s.selected.value).value].keywords
    ensures var k := FindIndex(s.images, s.selected.value).value;
            RemoveKeyword(EnterKeyword(s, typed), |s.images[k].keywords|) == s
  {
    var k := FindIndex(s.images, s.selected.value).value;
    var e := EnterKeyword(s, typed);
    assert SameIds(s.images, e.images);
    FindIndexSameIds(s.images, e.images, s.selected.value);
    var kws := s.images[k].keywords;
    assert e.images[k].keywords == kws + [Trim(typed)];
    assert SpliceOne(kws + [Trim(typed)], |kws|) == kws;
    var r := RemoveKeyword(e, |kws|);
    assert r.images[k] == s.images[k];
    assert r.images == s.images;
  }

  /** `keywords.splice(start, 1)` as seen in the array afterwards:
      a negative start counts from the end (and is clamped to 0), a start at
      or past the end removes nothing. */
  function SpliceOne<T>(xs: seq<T>, start: int): (r: seq<T>)
    ensures 0 <= start < |xs| ==> |r| == |xs| - 1
    ensures 0 <= start < |xs| ==> forall i :: 0 <= i < start ==> r[i] == xs[i]
    ensures 0 <= start < |xs| ==> forall i :: start <= i < |r| ==> r[i] == xs[i + 1]
    ensures 0 <= start < |xs| ==> multiset(r) + multiset{xs[start]} == multiset(xs)
    ensures start >= |xs| ==> r == xs
    ensures -|xs| <= start < 0 ==> r == xs[..|xs| + start] + xs[|xs| + start + 1..]
    ensures start < -|xs| && |xs| > 0 ==> r == xs[1..]
  {
    var n := |xs|;
    var actual := if start < 0 then (if n + start < 0 then 0 else n + start)
                  else (if start < n then start else n);
    if actual < n then
      RemoveAt(xs, actual);
      xs[..actual] + xs[actual + 1..]
    else
      xs
  }

  /** Removing the element at `k`: what comes before stays in place, what
      comes after moves one place left, and exactly that element is gone. */
  lemma RemoveAt<T>(xs: seq<T>, k: nat)
    requires k < |xs|
    ensures var r := xs[..k] + xs[k + 1..];
            && |r| == |xs| - 1
            && (forall i :: 0 <= i < k ==> r[i] == xs[i])
            && (forall i :: k <= i < |r| ==> r[i] == xs[i + 1])
            && multiset(r) + multiset{xs[k]} == multiset(xs)
            && (k == 0 ==> r == xs[1..])
  {
    assert xs == xs[..k] + [xs[k]] + xs[k + 1..];
  }

  /** Removing elements keeps a list free of duplicates. */
  lemma SpliceKeepsNoDuplicates<T>(xs: seq<T>, start: int)
    requires NoDuplicates(xs)
    ensures NoDuplicates(SpliceOne(xs, start))
  {
    var r := SpliceOne(xs, start);
    var n := |xs|;
    var actual := if start < 0 then (if n + start < 0 then 0 else n + start)
                  else (if start < n then start else n);
    if actual < n {
      RemoveAt(xs, actual);
      forall i, j | 0 <= i < j < |r|
        ensures r[i] != r[j]
      {
        var i' := if i < actual then i else i + 1;
        var j' := if j < actual then j else j + 1;
        assert r[i] == xs[i'] && r[j] == xs[j'];
      }
    }
  }

  /** `removeKeyword(index)`: splice the keyword at `index` out of the
      selected record; without a selected record nothing changes. */
  function RemoveKeyword(s: Registry, index: int): (r: Registry)
    ensures s.selected.None? ==> r == s
    ensures s.selected.Some? && FindIndex(s.images, s.selected.value).None? ==> r == s
    ensures s.selected.Some? && FindIndex(s.images, s.selected.value).Some? ==>
              var k := FindIndex(s.images, s.selected.value).value;
              && OnlyChanged(s, r, k)
              && r.images[k].title == s.images[k].title
              && r.images[k].description == s.images[k].description
              && r.images[k].keywords == SpliceOne(s.images[k].keywords, index)
    ensures Valid(s) ==> Valid(r)
    ensures KeywordsUnique(s) ==> KeywordsUnique(r)
  {
    match s.selected
    case None => s
    case Some(id) =>
      match FindIndex(s.images, id)
      case None => s
      case Some(k) =>
        var img := s.images[k];
        var img' := img.(keywords := SpliceOne(img.keywords, index));
        assert NoDuplicates(img.keywords) ==> NoDuplicates(img'.keywords) by {
          if NoDuplicates(img.keywords) {
            SpliceKeepsNoDuplicates(img.keywords, index);
          }
        }
        WithImageKeeps(s, k, img');
        WithImage(s, k, img')
  }

  /** With an in-range index, exactly that keyword of the selected record is
      removed, the later ones move one place left, and the list gets one
      shorter. */
  lemma RemoveKeywordInRange(s: Registry, index: int)
    requires s.selected.Some? && FindIndex(s.images, s.selected.value).Some?
    requires 0 <= index < |s.images[FindIndex(s.images, s.selected.value).value].keywords|
    ensures var k := FindIndex(s.images, s.selected.value).value;
            var before := s.images[k].keywords;
            var after := RemoveKeyword(s, index).images[k].keywords;
            && |after| == |before| - 1
            && after == before[..index] + before[index + 1..]
  {
    var k := FindIndex(s.images, s.selected.value).value;
    var before := s.images[k].keywords;
    var after := RemoveKeyword(s, index).images[k].keywords;
    assert after == before[..index] + before[index + 1..];
  }
}
