/** Page navigation of the PDF pane (`front/src/app/components/PDFViewer.tsx`):
    the previous/next buttons, the page-number text box and the effects
    that keep it in step with the page the viewer shows. Every handler
    returns the value it passes to `onPageChange`, or `None` when it does
    not call it; `currentPage` is the property the viewer passes in. */
module PdfViewer {
  import opened Wrappers
  import opened JsNumber

  /** What the previous-page button requests. */
  function PrevTarget(currentPage: int): (r: Option<int>)
    ensures r.Some? <==> currentPage > 1
    ensures r.Some? ==> r.value == currentPage - 1 && r.value >= 1
  {
    if currentPage > 1 then Some(currentPage - 1) else None
  }

  /** What the next-page button requests. */
  function NextTarget(currentPage: int, numPages: int): (r: Option<int>)
    ensures r.Some? <==> currentPage < numPages
    ensures r.Some? ==> r.value == currentPage + 1 && r.value <= numPages
  {
    if currentPage < numPages then Some(currentPage + 1) else None
  }

  /** What submitting the text box requests: the number `parseInt` reads
      from it, when that is a page of the document. */
  function SubmitTarget(pageInput: string, numPages: int): (r: Option<int>)
    ensures r.Some? <==> ParseInt(pageInput).Some? && 1 <= ParseInt(pageInput).value <= numPages
    ensures r.Some? ==> r == ParseInt(pageInput)
  {
    match ParseInt(pageInput)
    case Some(pageNum) => if pageNum >= 1 && pageNum <= numPages then Some(pageNum) else None
    case None => None
  }

  /** What the page-sync effect re-emits. */
  function SyncTarget(currentPage: int, numPages: int): (r: Option<int>)
    ensures r.Some? <==> 0 < numPages && 0 < currentPage <= numPages
    ensures r.Some? ==> r.value == currentPage
  {
    if numPages > 0 && currentPage > 0 && currentPage <= numPages then Some(currentPage) else None
  }

  /** The pane's own state: the document's page count (0 until it loads),
      whether it is still loading, and the text of the page-number box. */
  class PdfPane {
    var numPages: nat
    var isLoading: bool
    var pageInput: string

    constructor ()
      ensures numPages == 0 && isLoading && pageInput == ""
    {
      numPages := 0;
      isLoading := true;
      pageInput := "";
    }

    /** `onDocumentLoadSuccess({ numPages })`. */
    method OnDocumentLoadSuccess(pages: nat)
      modifies this
      ensures numPages == pages && !isLoading && pageInput == old(pageInput)
    {
      numPages := pages;
      isLoading := false;
    }

    /** The effect that runs when `currentPage` changes: the box shows the
        new page number. */
    method CurrentPageChanged(currentPage: int)
      modifies this
      ensures pageInput == IntToString(currentPage)
      ensures numPages == old(numPages) && isLoading == old(isLoading)
    {
      pageInput := IntToString(currentPage);
    }

    /** The effect that runs when `currentPage` or `numPages` changes. */
    method PageSyncEffect(currentPage: int) returns (emitted: Option<int>)
      ensures emitted == SyncTarget(currentPage, numPages)
    {
      emitted := None;
      if numPages > 0 && currentPage > 0 && currentPage <= numPages {
        emitted := Some(currentPage);
      }
    }

    /** `goToPrevPage()`. */
    method GoToPrevPage(currentPage: int) returns (emitted: Option<int>)
      ensures emitted == PrevTarget(currentPage)
    {
      emitted := None;
      if currentPage > 1 {
        emitted := Some(currentPage - 1);
      }
    }

    /** `goToNextPage()`. */
    method GoToNextPage(currentPage: int) returns (emitted: Option<int>)
      ensures emitted == NextTarget(currentPage, numPages)
    {
      emitted := None;
      if currentPage < numPages {
        emitted := Some(currentPage + 1);
      }
    }

    /** `handlePageInputChange(e)`: the box takes the typed text as is. */
    method HandlePageInputChange(value: string)
      modifies this
      ensures pageInput == value && numPages == old(numPages) && isLoading == old(isLoading)
    {
      pageInput := value;
    }

    /** `handlePageInputSubmit()`: request the typed page, or put the
        current page number back into the box. */
    method HandlePageInputSubmit(currentPage: int) returns (emitted: Option<int>)
      modifies this
      ensures emitted == SubmitTarget(old(pageInput), numPages)
      ensures pageInput == (if emitted.Some? then old(pageInput) else IntToString(currentPage))
      ensures numPages == old(numPages) && isLoading == old(isLoading)
    {
      var pageNum := ParseInt(pageInput);
      if pageNum.Some? && pageNum.value >= 1 && pageNum.value <= numPages {
        emitted := Some(pageNum.value);
      } else {
        emitted := None;
        pageInput := IntToString(currentPage);
      }
    }

    /** `handlePageInputKeyDown(e)`: Enter submits, other keys do nothing. */
    method HandlePageInputKeyDown(key: string, currentPage: int) returns (emitted: Option<int>)
      modifies this
      ensures key == "Enter" ==> emitted == SubmitTarget(old(pageInput), numPages)
      ensures key == "Enter" ==> pageInput == (if emitted.Some? then old(pageInput) else IntToString(currentPage))
      ensures key != "Enter" ==> emitted == None && pageInput == old(pageInput)
      ensures numPages == old(numPages) && isLoading == old(isLoading)
    {
      emitted := None;
      if key == "Enter" {
        emitted := HandlePageInputSubmit(currentPage);
      }
    }
  }

  // ---------------------------------------------------------------------
  // Properties
  // ---------------------------------------------------------------------

  /** Typing a page number (with anything after it that does not start with
      a digit) and submitting requests that page exactly when it is a page
      of the document. */
  lemma SubmitOfPageNumber(page: int, rest: string, numPages: int)
    requires rest == [] || !IsDigit(rest[0])
    ensures SubmitTarget(IntToString(page) + rest, numPages) == (if 1 <= page <= numPages then Some(page) else None)
  {
    ParseIntOfIntToString(page, rest);
  }

  /** The text a rejected submit leaves in the box requests the current
      page when submitted again, exactly when the sync effect would
      re-emit that page. */
  lemma ResetTextAgreesWithSync(currentPage: int, numPages: int)
    ensures SubmitTarget(IntToString(currentPage), numPages) == SyncTarget(currentPage, numPages)
  {
    SubmitOfPageNumber(currentPage, "", numPages);
    assert IntToString(currentPage) + "" == IntToString(currentPage);
  }

  /** White space typed before the number changes nothing. */
  lemma SubmitIgnoresLeadingWhiteSpace(w: string, s: string, numPages: int)
    requires forall i :: 0 <= i < |w| ==> IsStrWhiteSpace(w[i])
    ensures SubmitTarget(w + s, numPages) == SubmitTarget(s, numPages)
  {
    ParseIntSkipsWhiteSpace(w, s);
  }

  /** Previous and next undo each other inside the document. */
  lemma PrevAndNextAreInverse(currentPage: int, numPages: int)
    requires 1 <= currentPage <= numPages
    ensures PrevTarget(currentPage).Some? ==> NextTarget(PrevTarget(currentPage).value, numPages) == Some(currentPage)
    ensures NextTarget(currentPage, numPages).Some? ==> PrevTarget(NextTarget(currentPage, numPages).value) == Some(currentPage)
  {
  }

  /** Without a loaded document the next button requests nothing, as long
      as the current page is not negative; from a negative page it requests
      a page outside the document. */
  lemma NextWithoutDocument(currentPage: int)
    ensures currentPage >= 0 ==> NextTarget(currentPage, 0) == None
    ensures currentPage < 0 ==> NextTarget(currentPage, 0) == Some(currentPage + 1) && currentPage + 1 < 1
  {
  }
}
