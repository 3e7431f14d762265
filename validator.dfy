/** The per-row hit check of the conversion loop: a row is skipped as the
    "no hit" sentinel, rejected, or turned into a Judith hit. */
module HitValidator {
  import opened Records

  /** What the loop does with one row, given the hits the event holds. */
  datatype Action = Skip | Accept(hit: Hit) | Reject(error: Error)

  /** A column/row pair that names a real pixel of the detector. */
  predicate OnDetector(column: int, row: int)
  {
    1 <= column <= N_COLUMNS && 1 <= row <= N_ROWS
  }

  /** A hit as the converter writes it: 0-based pixel inside the detector,
      no cluster assigned, positions not calculated. */
  predicate ValidHit(h: Hit)
  {
    0 <= h.pixX < N_COLUMNS && 0 <= h.pixY < N_ROWS
    && h.inCluster == -1 && h.posX == 0 && h.posY == 0 && h.posZ == 0
  }

  /** A hit group as the converter writes it. */
  predicate ValidGroup(g: seq<Hit>)
  {
    |g| <= MAX_HITS && forall h <- g :: ValidHit(h)
  }

  /** The hit the converter writes for an accepted row. */
  function ToHit(r: Row): (h: Hit)
  {
    Hit(r.column - 1, r.row - 1, r.tot, r.relativeBcid, -1, 0, 0, 0)
  }

  /** Classifies row `r` when the current event already holds `nHits` hits.
      A zero column or row is the empty-event sentinel only while the event
      has no hit; the hit cap is checked before the detector range. */
  function Classify(r: Row, nHits: nat): (a: Action)
    ensures a.Skip? <==> (r.column == 0 || r.row == 0) && nHits == 0
    ensures a == Reject(MaxHitsReached) <==>
              !(nHits == 0 && (r.column == 0 || r.row == 0)) && nHits >= MAX_HITS
    ensures a == Reject(InvalidHit) <==>
              nHits < MAX_HITS && !(nHits == 0 && (r.column == 0 || r.row == 0))
              && !OnDetector(r.column, r.row)
    ensures a.Accept? <==> nHits < MAX_HITS && OnDetector(r.column, r.row)
    ensures a.Accept? ==>
              ValidHit(a.hit) && a.hit.pixX + 1 == r.column && a.hit.pixY + 1 == r.row
              && a.hit.value == r.tot && a.hit.timing == r.relativeBcid
  {
    if (r.column == 0 || r.row == 0) && nHits == 0 then
      Skip
    else if nHits >= MAX_HITS then
      Reject(MaxHitsReached)
    else if r.column <= 0 || r.row <= 0 || r.column > N_COLUMNS || r.row > N_ROWS then
      Reject(InvalidHit)
    else
      Accept(ToHit(r))
  }
}
