/** The application shell of `App.tsx`: which screen is shown, which artwork is selected, the
    collection last read from the store, and the viewer's previous/next navigation. */
module App {
  import opened Types
  import opened Storage
  import opened Canvas

  /** `currentArtIndex`: the first position whose identifier is the selected one; -1 when the
      selection is missing or empty (falsy) or nothing matches. */
  function ArtIndex(artworks: seq<Artwork>, selected: Option<string>): (i: int)
    ensures -1 <= i < |artworks|
    ensures i >= 0 ==> selected.Some? && artworks[i].id == selected.value
    ensures i >= 0 ==> forall k :: 0 <= k < i ==> artworks[k].id != selected.value
    ensures i == -1 <==>
      (selected == None || selected.value == "" || forall k :: 0 <= k < |artworks| ==> artworks[k].id != selected.value)
  {
    if selected.Some? && selected.value != "" then IndexOfId(artworks, selected.value) else -1
  }

  /** `currentArt`: the record at that index; indexing at -1 yields `undefined`. */
  function CurrentArt(artworks: seq<Artwork>, selected: Option<string>): Option<Artwork>
  {
    var i := ArtIndex(artworks, selected);
    if i >= 0 then Some(artworks[i]) else None
  }

  /** The viewer is rendered only on the viewer screen with an existing current artwork. */
  predicate ViewerShown(view: View, artworks: seq<Artwork>, selected: Option<string>)
  {
    view == Viewer && CurrentArt(artworks, selected).Some?
  }

  /** The guards under which `onNext` and `onPrev` are handed to the viewer. */
  predicate NextOffered(artworks: seq<Artwork>, selected: Option<string>)
  {
    ArtIndex(artworks, selected) < |artworks| - 1
  }

  predicate PrevOffered(artworks: seq<Artwork>, selected: Option<string>)
  {
    ArtIndex(artworks, selected) > 0
  }

  /** The viewer shows exactly when a non-empty identifier is selected that some record carries,
      and the record it shows is the first one carrying it. */
  lemma ViewerShownExactly(view: View, artworks: seq<Artwork>, selected: Option<string>)
    ensures ViewerShown(view, artworks, selected) <==>
      (view == Viewer && selected.Some? && selected.value != "" &&
       exists k :: 0 <= k < |artworks| && artworks[k].id == selected.value)
    ensures ViewerShown(view, artworks, selected) ==>
      CurrentArt(artworks, selected) == FindById(artworks, selected.value)
  {
    if selected.Some? {
      FindByIdIsFirstMatch(artworks, selected.value);
    }
  }

  /** While the viewer shows record i, next is offered exactly when i is not the last record and
      previous exactly when it is not the first. */
  lemma OfferedByPosition(artworks: seq<Artwork>, selected: Option<string>)
    requires CurrentArt(artworks, selected).Some?
    ensures var i := ArtIndex(artworks, selected);
      && 0 <= i < |artworks|
      && (NextOffered(artworks, selected) <==> i != |artworks| - 1)
      && (PrevOffered(artworks, selected) <==> i != 0)
  {
  }

  /** The selection `handleNext` leaves behind. */
  function AfterNext(artworks: seq<Artwork>, selected: Option<string>): Option<string>
  {
    var i := ArtIndex(artworks, selected);
    if i < |artworks| - 1 then Some(artworks[i + 1].id) else selected
  }

  /** The selection `handlePrev` leaves behind. */
  function AfterPrev(artworks: seq<Artwork>, selected: Option<string>): Option<string>
  {
    var i := ArtIndex(artworks, selected);
    if i > 0 then Some(artworks[i - 1].id) else selected
  }

  /** Identifiers are pairwise distinct and none is empty. */
  predicate WellKeyed(artworks: seq<Artwork>)
  {
    UniqueIds(artworks) && forall k :: 0 <= k < |artworks| ==> artworks[k].id != ""
  }

  /** With well-keyed records, next moves the current index up by one when offered and leaves it
      otherwise, and previous moves it down by one when offered and leaves it otherwise. */
  lemma {:induction false} NavigationMovesByOne(artworks: seq<Artwork>, selected: Option<string>)
    requires WellKeyed(artworks)
    requires CurrentArt(artworks, selected).Some?
    ensures var i := ArtIndex(artworks, selected);
      ArtIndex(artworks, AfterNext(artworks, selected)) == if i < |artworks| - 1 then i + 1 else i
    ensures var i := ArtIndex(artworks, selected);
      ArtIndex(artworks, AfterPrev(artworks, selected)) == if i > 0 then i - 1 else i
  {
    var i := ArtIndex(artworks, selected);
    if i < |artworks| - 1 {
      IndexOfOwnId(artworks, i + 1);
    }
    if i > 0 {
      IndexOfOwnId(artworks, i - 1);
    }
  }

  /** With well-keyed records, stepping forward and then back returns to the same selection. */
  lemma NextThenPrev(artworks: seq<Artwork>, selected: Option<string>)
    requires WellKeyed(artworks)
    requires CurrentArt(artworks, selected).Some? && NextOffered(artworks, selected)
    ensures PrevOffered(artworks, AfterNext(artworks, selected))
    ensures AfterPrev(artworks, AfterNext(artworks, selected)) == selected
  {
    NavigationMovesByOne(artworks, selected);
  }

  /** The React state of `App`. The effect keyed on `view` re-reads the store: every handler that
      changes the screen ends with that read, as one atomic step. */
  class Shell {
    var view: View
    var selectedArtId: Option<string>
    var artworks: seq<Artwork>
    const store: Store

    /** Mounting: the gallery with nothing selected, then the effect's first read. */
    constructor (s: Store, writeOk: bool)
      modifies s
      ensures store == s && view == Gallery && selectedArtId == None
      ensures artworks == Loaded(old(s.slot), s.seed)
      ensures s.slot == SeededSlot(old(s.slot), s.seed, writeOk)
    {
      store := s;
      view := Gallery;
      selectedArtId := None;
      new;
      artworks := s.GetArtworks(writeOk);
    }

    /** The `[view]` effect: `setArtworks(storageService.getArtworks())`. */
    method Refresh(writeOk: bool)
      modifies this, store
      ensures view == old(view) && selectedArtId == old(selectedArtId)
      ensures artworks == Loaded(old(store.slot), store.seed)
      ensures store.slot == SeededSlot(old(store.slot), store.seed, writeOk)
    {
      artworks := store.GetArtworks(writeOk);
    }

    /** `onSelect` from the gallery: select the artwork and open the viewer. */
    method Select(id: string, writeOk: bool)
      requires view == Gallery
      modifies this, store
      ensures view == Viewer && selectedArtId == Some(id)
      ensures artworks == Loaded(old(store.slot), store.seed)
      ensures store.slot == SeededSlot(old(store.slot), store.seed, writeOk)
    {
      selectedArtId := Some(id);
      view := Viewer;
      Refresh(writeOk);
    }

    /** `onCreate` from the gallery: open the editor. */
    method Create(writeOk: bool)
      requires view == Gallery
      modifies this, store
      ensures view == Editor && selectedArtId == old(selectedArtId)
      ensures artworks == Loaded(old(store.slot), store.seed)
      ensures store.slot == SeededSlot(old(store.slot), store.seed, writeOk)
    {
      view := Editor;
      Refresh(writeOk);
    }

    /** `onCancel` and `onPublish` from the editor, which the source wires identically: back to the
        gallery. */
    method LeaveEditor(writeOk: bool)
      requires view == Editor
      modifies this, store
      ensures view == Gallery && selectedArtId == old(selectedArtId)
      ensures artworks == Loaded(old(store.slot), store.seed)
      ensures store.slot == SeededSlot(old(store.slot), store.seed, writeOk)
    {
      view := Gallery;
      Refresh(writeOk);
    }

    /** `onBack` from the viewer: back to the gallery, keeping the selection. */
    method Back(writeOk: bool)
      requires ViewerShown(view, artworks, selectedArtId)
      modifies this, store
      ensures view == Gallery && selectedArtId == old(selectedArtId)
      ensures artworks == Loaded(old(store.slot), store.seed)
      ensures store.slot == SeededSlot(old(store.slot), store.seed, writeOk)
    {
      view := Gallery;
      Refresh(writeOk);
    }

    /** `handleNext`: select the following record when the current index is below the last one.
        The screen does not change, so the store is not re-read. */
    method Next()
      modifies this
      ensures view == old(view) && artworks == old(artworks)
      ensures var i := ArtIndex(artworks, old(selectedArtId));
        if i < |artworks| - 1 then selectedArtId == Some(artworks[i + 1].id)
        else selectedArtId == old(selectedArtId)
    {
      var i := ArtIndex(artworks, selectedArtId);
      if i < |artworks| - 1 {
        selectedArtId := Some(artworks[i + 1].id);
      }
    }

    /** `handlePrev`: select the preceding record when the current index is above the first. */
    method Prev()
      modifies this
      ensures view == old(view) && artworks == old(artworks)
      ensures var i := ArtIndex(artworks, old(selectedArtId));
        if i > 0 then selectedArtId == Some(artworks[i - 1].id)
        else selectedArtId == old(selectedArtId)
    {
      var i := ArtIndex(artworks, selectedArtId);
      if i > 0 {
        selectedArtId := Some(artworks[i - 1].id);
      }
    }
  }

  /** Publishing from the editor end to end, with the store accepting the write: the editor hands
      over its grid, the store saves it under the given identifier, and the shell returns to the
      gallery, whose re-read lists the new artwork first, followed by the collection as it was. */
  method PublishAndReturn(editor: Editor, shell: Shell, id: string, now: int,
                          seedWriteOk: bool, readWriteOk: bool)
    returns (art: Option<Artwork>)
    requires editor.Valid() && !editor.Busy() && shell.view == Editor
    modifies editor, shell, shell.store
    ensures editor.Valid() && editor.isPublishing
    ensures shell.view == Gallery
    ensures art == Some(Artwork(id, old(editor.cells), now))
    ensures shell.artworks == [art.value] + Loaded(old(shell.store.slot), shell.store.seed)
    ensures FindById(shell.artworks, id) == art
  {
    var toSave := editor.Publish();
    var saved := shell.store.SaveArtwork(toSave.value, id, now, seedWriteOk, true);
    art := Some(saved);
    shell.LeaveEditor(readWriteOk);
    FindAfterPrepend(saved, Loaded(old(shell.store.slot), shell.store.seed), id);
  }
}
