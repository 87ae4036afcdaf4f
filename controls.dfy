/**
  The values of the page's input controls, as the strings the DOM holds.
  Both the animation and the preset manager read and write them.
 */
module Controls {

  /** The number of vector rows in the control table (window.vectorCount =
      8 in settings.js and vectorCount = 8 in sketch.js). */
  const VectorCount: nat := 8

  /** One row of the vector table: the length{i}, N{i} and D{i} inputs. */
  datatype VectorParam = VectorParam(length: string, n: string, d: string)

  /** The control values read by draw, savePreset and loadPreset. */
  datatype Form = Form(
    vectors: seq<VectorParam>,
    pixelSize: string,
    snakeLength: string,
    drawSpeed: string,
    colorStep: string,
    presetName: string,
    title: string,
    maxRadiusStat: string)
}
