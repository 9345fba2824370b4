/** Entities of the emission sandbox (src/App.tsx:36-84). */
module Types {

  datatype Option<T> = None | Some(value: T)

  /** Land-use tag of a cell; drives two of the eight factor terms. */
  datatype Zone = Residential | Industrial | Commercial | Transport

  /** Category of a mitigation measure. */
  datatype Category = CaptureUnit | VerticalGarden | SolarPanel

  /** The eight global sliders of the factor model (`SimulationParameters`). */
  datatype Params = Params(
    green: real, building: real, water: real, vehicles: real,
    industrial: real, energy: real, congestion: real, publicTransport: real)

  /** An intervention placed on a cell: the catalog id plus the efficiency
      copied from the catalog when it was placed. The display icon is not kept. */
  datatype Intervention = Intervention(id: string, category: Category, efficiency: real, name: string)

  /** One grid cell (`GridCell`). `id` is "x-y"; `emission` is the derived
      current value; `savedParams` is the per-cell slider snapshot. */
  datatype Cell = Cell(
    id: string, x: nat, y: nat, emission: real, zone: Zone,
    interventions: seq<Intervention>, baseEmission: real, savedParams: Option<Params>)

  /** Side of the square grid and number of cells. */
  const Side: nat := 12
  const CellCount: nat := 144
}
