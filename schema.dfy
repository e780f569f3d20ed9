/**
 * The column names the mounting-plane and obstruction extractors rely on.
 * Names derived from a traversal path are spelled out once here, so every
 * producer and every join agrees on them.
 */
module Schema {
  /** Grouping key of the mounting-plane table. */
  const PlaneKey := "siteModel_buildings_mountingPlanes_id"
  /** Nested list of penetrations of a mounting plane. */
  const PenetrationsCol := "siteModel_buildings_mountingPlanes_penetrations"
  /** Nested edge list of a mounting plane's exterior ring. */
  const ExteriorEdgesCol := "siteModel_buildings_mountingPlanes_polygon.exteriorRing.edges"
  /** Nested list of a mounting plane's interior rings. */
  const InteriorRingsCol := "siteModel_buildings_mountingPlanes_polygon.interiorRings"

  const PenetrationEdgeId := "siteModel_buildings_mountingPlanes_penetrations_ring_edges_id"
  const PenetrationEdgeObstructionId := "siteModel_buildings_mountingPlanes_penetrations_ring_edges_obstructionId"
  const ExteriorEdgePrefix := "siteModel_buildings_mountingPlanes_polygon_exteriorRing_edges_"
  const InteriorWinding := "siteModel_buildings_mountingPlanes_polygon_interiorRing_edges_windingDirection"

  /** Grouping key of the obstruction table. */
  const ObstructionKey := "siteModel_obstructions_id"
  /** Nested edge list of an obstruction's ring. */
  const ObstructionEdgesCol := "siteModel_obstructions_ring.edges"
  const ObstructionEdgePrefix := "siteModel_obstructions_edges_"

  const VersionCol := "version"
}
