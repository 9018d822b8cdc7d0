/** The page switcher (src/components/pagination/Pagination.tsx). Pages are
    numbered from 0, as the service returns them. */
module Pagination {

  /** What the component renders: nothing, or the two buttons with the page each
      one requests, whether it is disabled, and the 1-based page number shown. */
  datatype Controls =
    | Hidden
    | Shown(backTarget: int, backDisabled: bool, shownPage: int, forwardTarget: int, forwardDisabled: bool)

  function Max(a: int, b: int): int { if a >= b then a else b }
  function Min(a: int, b: int): int { if a <= b then a else b }

  /** What the page switcher shows for the current page and the page count. */
  function Render(currentPage: int, totalPages: int): (c: Controls)
    ensures c.Hidden? <==> totalPages <= 1
    ensures c.Shown? ==> 0 <= c.backTarget && c.backTarget <= Max(0, currentPage)
    ensures c.Shown? ==> c.forwardTarget <= totalPages - 1
    ensures c.Shown? ==> (c.backDisabled <==> currentPage == 0)
    ensures c.Shown? ==> (c.forwardDisabled <==> currentPage == totalPages - 1)
    ensures c.Shown? ==> c.shownPage == currentPage + 1
    ensures c.Shown? ==> c.backTarget == if currentPage <= 0 then 0 else currentPage - 1
    ensures c.Shown? ==>
              c.forwardTarget == if currentPage + 1 >= totalPages then totalPages - 1 else currentPage + 1
    ensures c.Shown? && 0 <= currentPage < totalPages ==>
              0 <= c.backTarget < totalPages && 0 <= c.forwardTarget < totalPages
  {
    if totalPages <= 1 then Hidden
    else Shown(Max(0, currentPage - 1), currentPage == 0, currentPage + 1,
               Min(totalPages - 1, currentPage + 1), currentPage == totalPages - 1)
  }

  /** Inside the page range an enabled button moves exactly one page, and going
      forward then back returns to the starting page. */
  lemma StepByOne(currentPage: int, totalPages: int)
    requires 0 <= currentPage < totalPages && totalPages > 1
    ensures !Render(currentPage, totalPages).backDisabled ==>
              Render(currentPage, totalPages).backTarget == currentPage - 1
    ensures !Render(currentPage, totalPages).forwardDisabled ==>
              Render(currentPage, totalPages).forwardTarget == currentPage + 1
    ensures !Render(currentPage, totalPages).forwardDisabled ==>
              Render(Render(currentPage, totalPages).forwardTarget, totalPages).backTarget == currentPage
  {
  }
}
